/** The two bracket-aware text helpers every body parser relies on
    (`_split_balanced` and `_find_colon_depth0`, odin_plugin.py:63-93).
    Both walk the text once, keeping a bracket depth that `(`, `[`, `{`
    raise by one and `)`, `]`, `}` lower by one; the three kinds are not
    told apart and the depth may become negative. */
module Balanced {
  import opened Text

  /** The change a character makes to the bracket depth. */
  function Delta(c: char): int {
    if c == '(' || c == '[' || c == '{' then 1
    else if c == ')' || c == ']' || c == '}' then -1
    else 0
  }

  /** The bracket depth after reading `s` from depth 0. */
  function Depth(s: string): int {
    if s == [] then 0 else Depth(s[..|s| - 1]) + Delta(s[|s| - 1])
  }

  lemma DepthSnoc(s: string, c: char)
    ensures Depth(s + [c]) == Depth(s) + Delta(c)
  {
    assert (s + [c])[..|s|] == s;
  }

  lemma {:induction false} DepthAppend(a: string, b: string)
    ensures Depth(a + b) == Depth(a) + Depth(b)
    decreases |b|
  {
    if b == [] {
      assert a + b == a;
    } else {
      var b' := b[..|b| - 1];
      assert a + b == (a + b') + [b[|b| - 1]];
      DepthSnoc(a + b', b[|b| - 1]);
      DepthAppend(a, b');
    }
  }

  /** `text` ends with a separator read at depth 0: the last thing
      `_split_balanced` does is a cut, and no final part follows it. */
  predicate EndsWithCut(text: string, sep: char) {
    text != [] && text[|text| - 1] == sep && Depth(text) == 0
  }

  /** No separator of `part` is read at depth 0 (the part is measured from
      depth 0, as every part starts there). */
  predicate NoCutInside(part: string, sep: char) {
    forall i :: 0 <= i < |part| && part[i] == sep ==> Depth(part[..i + 1]) != 0
  }

  /** The loop of `_split_balanced`: `depth` and `current` are its two
      local variables, `t` is the text still to read. */
  function SplitFrom(t: string, sep: char, depth: int, current: string): seq<string>
    decreases |t|
  {
    if t == [] then (if current == [] then [] else [current])
    else
      var d := depth + Delta(t[0]);
      if t[0] == sep && d == 0 then [current] + SplitFrom(t[1..], sep, d, [])
      else SplitFrom(t[1..], sep, d, current + [t[0]])
  }

  /** Every part is free of depth-0 separators. */
  predicate PartsUncut(parts: seq<string>, sep: char) {
    forall k :: 0 <= k < |parts| ==> NoCutInside(parts[k], sep)
  }

  /** Every part but the last, followed by its separator, is balanced. */
  predicate PartsClosed(parts: seq<string>, sep: char) {
    forall k :: 0 <= k < |parts| - 1 ==> Depth(parts[k] + [sep]) == 0
  }

  /** What joining the parts loses: the separator of a final cut. */
  function Trailer(text: string, sep: char): string {
    if EndsWithCut(text, sep) then [sep] else []
  }

  /** A final empty part only arises from a cut at the very end. */
  predicate LastEmptyOnlyAfterCut(parts: seq<string>, text: string, sep: char) {
    parts != [] && parts[|parts| - 1] == [] ==> EndsWithCut(text, sep)
  }

  /** `_split_balanced(text, sep)`: the text cut at every separator read at
      bracket depth 0; a trailing empty part is dropped.
      The parts reproduce the text when joined with the separator (plus
      the final separator when the text ends with a cut), a separator
      inside brackets stays in its part, and every part but the last is
      closed: it and its separator bring the depth back to 0. */
  function SplitBalanced(text: string, sep: char): (parts: seq<string>)
    ensures parts == [] <==> text == []
    ensures Join(parts, [sep]) + Trailer(text, sep) == text
    ensures PartsUncut(parts, sep)
    ensures PartsClosed(parts, sep)
    ensures LastEmptyOnlyAfterCut(parts, text, sep)
  {
    assert NoCutInside([], sep);
    SplitFromShape(text, sep, []);
    SplitFromJoin(text, sep, []);
    SplitFromParts(text, sep, []);
    assert [] + text == text;
    SplitFrom(text, sep, 0, [])
  }

  lemma {:induction false} SplitFromShape(t: string, sep: char, current: string)
    ensures SplitFrom(t, sep, Depth(current), current) == [] <==> current + t == []
    decreases |t|
  {
    if t != [] {
      DepthSnoc(current, t[0]);
      if t[0] == sep && Depth(current) + Delta(t[0]) == 0 {
      } else {
        SplitFromShape(t[1..], sep, current + [t[0]]);
      }
    }
  }

  /** Reading one more character keeps a part free of depth-0 separators,
      unless that character is itself a cut. */
  lemma NoCutInsideSnoc(current: string, sep: char, c: char)
    requires NoCutInside(current, sep)
    requires c == sep ==> Depth(current) + Delta(c) != 0
    ensures NoCutInside(current + [c], sep)
  {
    var cur' := current + [c];
    DepthSnoc(current, c);
    forall i | 0 <= i < |cur'| && cur'[i] == sep
      ensures Depth(cur'[..i + 1]) != 0
    {
      if i < |current| {
        assert cur'[..i + 1] == current[..i + 1];
      } else {
        assert cur'[..i + 1] == cur';
      }
    }
  }

  /** The parts rebuild `text` when joined with the separator, and only a
      final cut leaves an empty last part. */
  predicate Rebuilds(parts: seq<string>, text: string, sep: char) {
    && Join(parts, [sep]) + Trailer(text, sep) == text
    && LastEmptyOnlyAfterCut(parts, text, sep)
  }

  /** The end of the text: the pending part rebuilds it. */
  lemma SplitFromEnd(current: string, sep: char)
    requires NoCutInside(current, sep)
    ensures Rebuilds(SplitFrom([], sep, Depth(current), current), current, sep)
  {
    if current != [] {
      assert current[..|current| - 1 + 1] == current;
    }
  }

  lemma {:induction false} SplitFromJoin(t: string, sep: char, current: string)
    requires NoCutInside(current, sep)
    ensures Rebuilds(SplitFrom(t, sep, Depth(current), current), current + t, sep)
    decreases |t|
  {
    if t == [] {
      assert current + t == current;
      SplitFromEnd(current, sep);
    } else {
      var c := t[0];
      DepthSnoc(current, c);
      if c == sep && Depth(current) + Delta(c) == 0 {
        assert NoCutInside([], sep);
        SplitFromJoin(t[1..], sep, []);
        SplitFromShape(t[1..], sep, []);
        CutStep(t, sep, current);
      } else {
        NoCutInsideSnoc(current, sep, c);
        SplitFromJoin(t[1..], sep, current + [c]);
        KeepStep(t, sep, current);
      }
    }
  }

  /** The cut step of `SplitFromJoin`: the part just closed, its separator
      and the parts of the rest rebuild the text. */
  lemma CutStep(t: string, sep: char, current: string)
    requires t != [] && t[0] == sep && Depth(current) + Delta(sep) == 0
    requires SplitFrom(t[1..], sep, Depth([]), []) == [] <==> [] + t[1..] == []
    requires Rebuilds(SplitFrom(t[1..], sep, Depth([]), []), [] + t[1..], sep)
    ensures Rebuilds(SplitFrom(t, sep, Depth(current), current), current + t, sep)
  {
    var r' := SplitFrom(t[1..], sep, 0, []);
    assert Depth([]) == 0 && [] + t[1..] == t[1..];
    assert Depth(current + [sep]) == 0 by { DepthSnoc(current, sep); }
    SplitFromCut(t, sep, current);
    AppendFirst(current, t);
    CutJoin(current, t[1..], r', sep, current + t);
  }

  lemma AppendFirst(current: string, t: string)
    requires t != []
    ensures current + t == current + [t[0]] + t[1..]
  {
    assert t == [t[0]] + t[1..];
  }

  lemma SplitFromCut(t: string, sep: char, current: string)
    requires t != [] && t[0] == sep && Depth(current) + Delta(sep) == 0
    ensures SplitFrom(t, sep, Depth(current), current) == [current] + SplitFrom(t[1..], sep, 0, [])
  {
  }

  /** The step of `SplitFromJoin` that adds a character to the part. */
  lemma KeepStep(t: string, sep: char, current: string)
    requires t != [] && !(t[0] == sep && Depth(current) + Delta(t[0]) == 0)
    requires Rebuilds(SplitFrom(t[1..], sep, Depth(current + [t[0]]), current + [t[0]]), current + [t[0]] + t[1..], sep)
    ensures Rebuilds(SplitFrom(t, sep, Depth(current), current), current + t, sep)
  {
    DepthSnoc(current, t[0]);
    AppendFirst(current, t);
  }

  /** The cut step for any parts `r'` that rebuild the rest. */
  lemma CutJoin(current: string, rest: string, r': seq<string>, sep: char, text: string)
    requires Depth(current + [sep]) == 0
    requires r' == [] <==> rest == []
    requires Rebuilds(r', rest, sep)
    requires text == current + [sep] + rest
    ensures Rebuilds([current] + r', text, sep)
  {
    if r' == [] {
      assert EndsWithCut(current + [sep], sep);
      assert current + [sep] + rest == current + [sep];
    } else {
      JoinCons(current, r', sep);
      TrailerAfterCut(current, rest, sep);
    }
  }

  lemma JoinCons(current: string, r': seq<string>, sep: char)
    requires r' != []
    ensures Join([current] + r', [sep]) == current + [sep] + Join(r', [sep])
    ensures ([current] + r')[|r'|] == r'[|r'| - 1]
  {
    assert ([current] + r')[1..] == r';
  }

  /** After a cut at depth 0, the text ends with a cut exactly when the
      rest after the cut does. */
  lemma TrailerAfterCut(current: string, rest: string, sep: char)
    requires rest != [] && Depth(current + [sep]) == 0
    ensures EndsWithCut(current + [sep] + rest, sep) == EndsWithCut(rest, sep)
  {
    DepthAppend(current + [sep], rest);
    assert (current + [sep] + rest)[|current + [sep] + rest| - 1] == rest[|rest| - 1];
  }

  lemma {:induction false} SplitFromParts(t: string, sep: char, current: string)
    requires NoCutInside(current, sep)
    ensures PartsUncut(SplitFrom(t, sep, Depth(current), current), sep)
    ensures PartsClosed(SplitFrom(t, sep, Depth(current), current), sep)
    decreases |t|
  {
    var r := SplitFrom(t, sep, Depth(current), current);
    if t != [] {
      var c := t[0];
      DepthSnoc(current, c);
      if c == sep && Depth(current) + Delta(c) == 0 {
        assert NoCutInside([], sep);
        var r' := SplitFrom(t[1..], sep, 0, []);
        SplitFromParts(t[1..], sep, []);
        assert r == [current] + r';
        PartsCons(current, r', sep);
      } else {
        NoCutInsideSnoc(current, sep, c);
        SplitFromParts(t[1..], sep, current + [c]);
      }
    }
  }

  /** A cut part in front of parts that are uncut and closed keeps them
      so. */
  lemma PartsCons(current: string, parts: seq<string>, sep: char)
    requires NoCutInside(current, sep) && Depth(current + [sep]) == 0
    requires PartsUncut(parts, sep) && PartsClosed(parts, sep)
    ensures PartsUncut([current] + parts, sep) && PartsClosed([current] + parts, sep)
  {
    var r := [current] + parts;
    forall k | 0 <= k < |r|
      ensures NoCutInside(r[k], sep)
      ensures k < |r| - 1 ==> Depth(r[k] + [sep]) == 0
    {
      if k > 0 {
        assert r[k] == parts[k - 1];
      }
    }
  }

  /** `x` holds neither the separator nor any bracket. */
  predicate Plain(x: string, sep: char) {
    forall i :: 0 <= i < |x| ==> x[i] != sep && Delta(x[i]) == 0
  }

  lemma {:induction false} PlainDepth(x: string, sep: char)
    requires Plain(x, sep)
    ensures Depth(x) == 0
    decreases |x|
  {
    if x != [] {
      PlainDepth(x[..|x| - 1], sep);
    }
  }

  /** Plain text passes whole into the part being collected. */
  lemma {:induction false} SplitFromPlain(x: string, t: string, sep: char, depth: int, current: string)
    requires Plain(x, sep)
    ensures SplitFrom(x + t, sep, depth, current) == SplitFrom(t, sep, depth, current + x)
    decreases |x|
  {
    if x == [] {
      assert x + t == t;
      assert current + x == current;
    } else {
      assert (x + t)[0] == x[0];
      assert (x + t)[1..] == x[1..] + t;
      SplitFromPlain(x[1..], t, sep, depth, current + [x[0]]);
      assert current + [x[0]] + x[1..] == current + x;
    }
  }

  /** A plain first part is cut off at the first separator. */
  lemma SplitBalancedPlainHead(x: string, t: string, sep: char)
    requires Plain(x, sep) && Delta(sep) == 0
    ensures SplitBalanced(x + [sep] + t, sep) == [x] + SplitBalanced(t, sep)
  {
    SplitFromPlain(x, [sep] + t, sep, 0, []);
    assert x + [sep] + t == x + ([sep] + t);
    assert [] + x == x;
    assert ([sep] + t)[0] == sep && ([sep] + t)[1..] == t;
  }

  /** A non-empty plain text is a single part. */
  lemma SplitBalancedPlain(x: string, sep: char)
    requires Plain(x, sep) && x != []
    ensures SplitBalanced(x, sep) == [x]
  {
    SplitFromPlain(x, [], sep, 0, []);
    assert x + [] == x;
    assert [] + x == x;
  }

  lemma {:induction false} SplitFromUncut(t: string, sep: char, current: string)
    requires forall i :: 0 <= i < |t| && t[i] == sep ==> Depth(current + t[..i + 1]) != 0
    ensures SplitFrom(t, sep, Depth(current), current) == (if current + t == [] then [] else [current + t])
    decreases |t|
  {
    if t == [] {
      assert current + t == current;
    } else {
      assert t[..1] == [t[0]];
      DepthSnoc(current, t[0]);
      var next := current + [t[0]];
      forall i | 0 <= i < |t[1..]| && t[1..][i] == sep
        ensures Depth(next + t[1..][..i + 1]) != 0
      {
        assert next + t[1..][..i + 1] == current + t[..i + 2];
      }
      SplitFromUncut(t[1..], sep, next);
      assert next + t[1..] == current + t;
    }
  }

  /** A non-empty text with no separator read at depth 0 is a single part,
      whatever brackets it holds. */
  lemma SplitBalancedUncut(x: string, sep: char)
    requires x != [] && NoCutInside(x, sep)
    ensures SplitBalanced(x, sep) == [x]
  {
    assert forall i :: 0 <= i < |x| && x[i] == sep ==> Depth([] + x[..i + 1]) != 0 by {
      forall i | 0 <= i < |x| && x[i] == sep ensures Depth([] + x[..i + 1]) != 0 {
        assert [] + x[..i + 1] == x[..i + 1];
      }
    }
    SplitFromUncut(x, sep, []);
    assert [] + x == x;
  }

  /** A plain front does not add a cut to a text that has none. */
  lemma NoCutAfterPlain(a: string, x: string, sep: char)
    requires Plain(a, sep) && NoCutInside(x, sep)
    ensures NoCutInside(a + x, sep)
  {
    PlainDepth(a, sep);
    forall i | 0 <= i < |a + x| && (a + x)[i] == sep ensures Depth((a + x)[..i + 1]) != 0 {
      if i >= |a| {
        assert (a + x)[..i + 1] == a + x[..i + 1 - |a|];
        DepthAppend(a, x[..i + 1 - |a|]);
      }
    }
  }

  /** The character `c` is read at depth 0 at index `i` of `text`. */
  predicate AtDepth0(text: string, c: char, i: int) {
    0 <= i < |text| && text[i] == c && Depth(text[..i]) == 0
  }

  /** The scanning loop shared by `_find_colon_depth0` and the default-value
      cut of `_parse_proc_params` (odin_plugin.py:185-193), from index `i`
      with `depth` the depth reached so far. Brackets are checked first, so a
      bracket is never the character looked for. */
  function FindAtDepth0From(text: string, c: char, i: nat, depth: int): (r: int)
    requires Delta(c) == 0
    requires i <= |text| && depth == Depth(text[..i])
    ensures r == -1 || (i <= r && AtDepth0(text, c, r))
    ensures forall j :: i <= j < |text| && (r == -1 || j < r) ==> !AtDepth0(text, c, j)
    decreases |text| - i
  {
    if i == |text| then -1
    else
      var ch := text[i];
      assert text[..i + 1] == text[..i] + [ch];
      DepthSnoc(text[..i], ch);
      if ch == '(' || ch == '[' || ch == '{' then FindAtDepth0From(text, c, i + 1, depth + 1)
      else if ch == ')' || ch == ']' || ch == '}' then FindAtDepth0From(text, c, i + 1, depth - 1)
      else if ch == c && depth == 0 then i
      else FindAtDepth0From(text, c, i + 1, depth)
  }

  /** The index of the first `c` read at bracket depth 0, or -1. */
  function FindAtDepth0(text: string, c: char): (r: int)
    requires Delta(c) == 0
    ensures r == -1 || AtDepth0(text, c, r)
    ensures r == -1 <==> forall j :: 0 <= j < |text| ==> !AtDepth0(text, c, j)
    ensures r != -1 ==> forall j :: 0 <= j < r ==> !AtDepth0(text, c, j)
  {
    assert text[..0] == [];
    FindAtDepth0From(text, c, 0, 0)
  }

  /** `_find_colon_depth0(text)`: the index of the first colon read at
      bracket depth 0, or -1 when there is none. */
  function FindColonDepth0(text: string): (r: int)
    ensures r == -1 <==> forall j :: 0 <= j < |text| ==> !AtDepth0(text, ':', j)
    ensures r != -1 ==> AtDepth0(text, ':', r) && forall j :: 0 <= j < r ==> !AtDepth0(text, ':', j)
  {
    FindAtDepth0(text, ':')
  }
}
