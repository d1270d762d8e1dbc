/** The two text scanners of the completion code that work on a line
    alone: `_find_enclosing_call` (odin_plugin.py:1041-1078), which finds
    the call the cursor is in and which argument it is at, and the chain
    walk of `_get_word_before_dot` (odin_plugin.py:842-869), which reads a
    dotted chain such as `ctx.style` back from the cursor. */
module Calls {
  import opened Wrappers
  import opened Text

  /** `ch in ' \t'` */
  predicate IsBlank(c: char) {
    c == ' ' || c == '\t'
  }

  /** A character of a called name: `ch.isalnum() or ch in '_.'`. */
  predicate IsNameChar(c: char) {
    IsAlnum(c) || c == '_' || c == '.'
  }

  /** Where the run of blanks that ends at `end` starts. */
  function BlankStart(t: string, end: nat): (r: nat)
    requires end <= |t|
    ensures r <= end
    ensures forall i :: r <= i < end ==> IsBlank(t[i])
    ensures r == 0 || !IsBlank(t[r - 1])
    decreases end
  {
    if end > 0 && IsBlank(t[end - 1]) then BlankStart(t, end - 1) else end
  }

  /** Where the run of name characters that ends at `end` starts. */
  function NameStart(t: string, end: nat): (r: nat)
    requires end <= |t|
    ensures r <= end
    ensures forall i :: r <= i < end ==> IsNameChar(t[i])
    ensures r == 0 || !IsNameChar(t[r - 1])
    decreases end
  {
    if end > 0 && IsNameChar(t[end - 1]) then NameStart(t, end - 1) else end
  }

  /** Where the run of word characters that ends at `end` starts. */
  function WordStart(t: string, end: nat): (r: nat)
    requires end <= |t|
    ensures r <= end
    ensures forall i :: r <= i < end ==> IsWordChar(t[i])
    ensures r == 0 || !IsWordChar(t[r - 1])
    decreases end
  {
    if end > 0 && IsWordChar(t[end - 1]) then WordStart(t, end - 1) else end
  }

  // ---------------------------------------------------------------------
  // _find_enclosing_call
  // ---------------------------------------------------------------------

  /** The name written before the paren at `p`, blanks in between skipped.
      (`strip()` has nothing to remove: no name character is whitespace.) */
  function CallName(t: string, p: nat): (r: string)
    requires p <= |t|
    ensures forall i :: 0 <= i < |r| ==> IsNameChar(r[i])
    // the name ends where the blanks before `p` begin ...
    ensures |r| <= BlankStart(t, p) && r == t[BlankStart(t, p) - |r|..BlankStart(t, p)]
    // ... and is the longest such run
    ensures |r| == BlankStart(t, p) || !IsNameChar(t[BlankStart(t, p) - |r| - 1])
  {
    var end := BlankStart(t, p);
    t[NameStart(t, end)..end]
  }

  /** The answer once the opening paren at `p` is found. */
  function CallAt(t: string, p: nat, commas: nat): (r: (Option<string>, nat))
    requires p <= |t|
    ensures r.0.None? <==> CallName(t, p) == []
    ensures r.0.None? ==> r.1 == 0
    ensures r.0.Some? ==> r.0.value == CallName(t, p) && r.1 == commas
  {
    var name := CallName(t, p);
    if name != [] then (Some(name), commas) else (None, 0)
  }

  /** The backward scan over `t[..k]`, with the depth and the count of
      depth-0 commas gathered from `t[k..]`. */
  function Scan(t: string, k: nat, depth: int, commas: nat): (r: (Option<string>, nat))
    requires k <= |t|
    ensures r.0.None? ==> r.1 == 0
    decreases k
  {
    if k == 0 then (None, 0)
    else
      var c := t[k - 1];
      if c == ')' then Scan(t, k - 1, depth + 1, commas)
      else if c == '(' then
        if depth == 0 then CallAt(t, k - 1, commas) else Scan(t, k - 1, depth - 1, commas)
      else if c == ',' && depth == 0 then Scan(t, k - 1, depth, commas + 1)
      else if c == '{' then Scan(t, k - 1, depth - 1, commas)
      else if c == '}' then Scan(t, k - 1, depth + 1, commas)
      else Scan(t, k - 1, depth, commas)
  }

  /** `_find_enclosing_call(text)`: the called name and the index of the
      argument the end of `text` is in, or `(None, 0)`. Against the
      reference reading below: it answers for the enclosing paren when
      there is one, counting the depth-0 commas after it, and `(None, 0)`
      when there is none. */
  function FindEnclosingCall(text: string): (r: (Option<string>, nat))
    ensures r.0.None? ==> r.1 == 0
    ensures forall p: nat :: Encloses(text, p) ==> r == CallAt(text, p, CommasFrom(text, p + 1))
    ensures (forall p: nat :: !Encloses(text, p)) ==> r == (None, 0)
  {
    ScanMatches(text, |text|, 0, 0);
    Scan(text, |text|, 0, 0)
  }

  // The reference reading: depth as a sum over the text after a position.

  /** What a character does to the depth when met going backwards: a
      closer opens a level, an opener closes one. `{` counts even where
      `(` would stop the scan. */
  function Delta(c: char): int {
    if c == ')' || c == '}' then 1 else if c == '(' || c == '{' then -1 else 0
  }

  /** The depth after scanning `t[k..]` from the end. */
  function Net(t: string, k: nat): int
    requires k <= |t|
    decreases |t| - k
  {
    if k == |t| then 0 else Delta(t[k]) + Net(t, k + 1)
  }

  /** The commas of `t[k..]` met at depth 0. */
  function CommasFrom(t: string, k: nat): nat
    requires k <= |t|
    decreases |t| - k
  {
    if k == |t| then 0 else (if t[k] == ',' && Net(t, k + 1) == 0 then 1 else 0) + CommasFrom(t, k + 1)
  }

  /** `p` is the enclosing call's paren: a `(` at depth 0, with no `(` at
      depth 0 after it. */
  predicate Encloses(t: string, p: nat) {
    && p < |t| && t[p] == '(' && Net(t, p + 1) == 0
    && forall q :: p < q < |t| && t[q] == '(' ==> Net(t, q + 1) != 0
  }

  /** There is at most one enclosing paren. */
  lemma EnclosesUnique(t: string, p: nat, p': nat)
    requires Encloses(t, p) && Encloses(t, p')
    ensures p == p'
  {
  }

  /** The scan finds the enclosing paren, with the depth-0 commas after it,
      given that what it has read so far holds no `(` at depth 0. */
  lemma {:induction false} ScanMatches(t: string, k: nat, depth: int, commas: nat)
    requires k <= |t| && depth == Net(t, k) && commas == CommasFrom(t, k)
    requires forall q :: k <= q < |t| && t[q] == '(' ==> Net(t, q + 1) != 0
    ensures forall p: nat :: Encloses(t, p) ==> Scan(t, k, depth, commas) == CallAt(t, p, CommasFrom(t, p + 1))
    ensures (forall p: nat :: !Encloses(t, p)) ==> Scan(t, k, depth, commas) == (None, 0)
    decreases k
  {
    if k == 0 {
      forall p: nat ensures !Encloses(t, p) {
        if p < |t| && t[p] == '(' {
          assert Net(t, p + 1) != 0;
        }
      }
    } else {
      if t[k - 1] == '(' && depth == 0 {
        ScanStopsAt(t, k);
        assert Scan(t, k, depth, commas) == CallAt(t, k - 1, CommasFrom(t, k));
      } else {
        var depth', commas' := ScanStep(t, k, depth, commas);
        ScanMatches(t, k - 1, depth', commas');
      }
    }
  }

  /** A `(` at depth 0 with none after it is the one enclosing paren. */
  lemma ScanStopsAt(t: string, k: nat)
    requires 0 < k <= |t| && t[k - 1] == '(' && Net(t, k) == 0
    requires forall q :: k <= q < |t| && t[q] == '(' ==> Net(t, q + 1) != 0
    ensures Encloses(t, k - 1)
    ensures forall p: nat :: Encloses(t, p) ==> p == k - 1
  {
    assert Encloses(t, k - 1);
    forall p: nat | Encloses(t, p) ensures p == k - 1 {
      EnclosesUnique(t, p, k - 1);
    }
  }

  /** One step of the scan that does not stop keeps the depth and the
      comma count in step with the reference reading. */
  lemma ScanStep(t: string, k: nat, depth: int, commas: nat) returns (depth': int, commas': nat)
    requires 0 < k <= |t| && depth == Net(t, k) && commas == CommasFrom(t, k)
    requires !(t[k - 1] == '(' && depth == 0)
    ensures depth' == Net(t, k - 1) && commas' == CommasFrom(t, k - 1)
    ensures Scan(t, k, depth, commas) == Scan(t, k - 1, depth', commas')
  {
    var c := t[k - 1];
    depth' := if c == ')' || c == '}' then depth + 1 else if c == '(' || c == '{' then depth - 1 else depth;
    commas' := if c == ',' && depth == 0 then commas + 1 else commas;
  }

  /** A called name followed directly by `(`, an open `{` and the `.` of an
      implicit selector: the text before the cursor while the first
      element of a `bit_set` argument is being typed, as in `f({.A})`. */
  predicate CallThenBrace(text: string, name: string) {
    && name != [] && IsWordChar(name[|name| - 1])
    && (forall i :: 0 <= i < |name| ==> IsNameChar(name[i]))
    && text == name + "({."
  }

  /** As written, an open `{` after the call's paren lowers the depth below
      zero, so the paren is never taken for the call. */
  lemma OpenBraceHidesCall(text: string, name: string)
    requires CallThenBrace(text, name)
    ensures FindEnclosingCall(text) == (None, 0)
  {
    var n := |name|;
    assert Net(text, n + 3) == 0;
    assert Net(text, n + 2) == 0;
    assert Net(text, n + 1) == -1;
    forall p: nat | p < |text| && text[p] == '(' ensures p == n {
    }
  }

  /** The scan with an open `{` at depth 0 taken as the start of a literal
      argument: the commas counted inside it are dropped and the depth
      stays at 0, so the scan goes on to the call's paren. */
  function ScanFixed(t: string, k: nat, depth: int, commas: nat): (r: (Option<string>, nat))
    requires k <= |t|
    ensures r.0.None? ==> r.1 == 0
    decreases k
  {
    if k == 0 then (None, 0)
    else
      var c := t[k - 1];
      if c == ')' then ScanFixed(t, k - 1, depth + 1, commas)
      else if c == '(' then
        if depth == 0 then CallAt(t, k - 1, commas) else ScanFixed(t, k - 1, depth - 1, commas)
      else if c == ',' && depth == 0 then ScanFixed(t, k - 1, depth, commas + 1)
      else if c == '{' then
        if depth == 0 then ScanFixed(t, k - 1, 0, 0) else ScanFixed(t, k - 1, depth - 1, commas)
      else if c == '}' then ScanFixed(t, k - 1, depth + 1, commas)
      else ScanFixed(t, k - 1, depth, commas)
  }

  /** `_find_enclosing_call` with the correction; on text without `{` it
      answers as the code as written does. */
  function FindEnclosingCallFixed(text: string): (r: (Option<string>, nat))
    ensures r.0.None? ==> r.1 == 0
    ensures (forall i :: 0 <= i < |text| ==> text[i] != '{') ==> r == FindEnclosingCall(text)
  {
    FixedAgreesIfNoBraces(text);
    ScanFixed(text, |text|, 0, 0)
  }

  lemma FixedAgreesIfNoBraces(text: string)
    ensures (forall i :: 0 <= i < |text| ==> text[i] != '{') ==>
      ScanFixed(text, |text|, 0, 0) == Scan(text, |text|, 0, 0)
  {
    if forall i :: 0 <= i < |text| ==> text[i] != '{' {
      FixedAgreesWithoutBraces(text, |text|, 0, 0);
    }
  }

  /** With the fix, the call around an open literal is found, at the
      argument the literal is. */
  lemma OpenBraceKeepsCall(text: string, name: string)
    requires CallThenBrace(text, name)
    ensures FindEnclosingCallFixed(text) == (Some(name), 0)
  {
    var n := |name|;
    assert text[n + 2] == '.' && text[n + 1] == '{' && text[n] == '(';
    CallNameIsName(text, name);
    FixedScanOverBrace(text, n);
  }

  /** The fixed scan over `({.` at the end of the text stops at the `(`,
      with no argument counted. */
  lemma FixedScanOverBrace(text: string, n: nat)
    requires |text| == n + 3 && text[n] == '(' && text[n + 1] == '{' && text[n + 2] == '.'
    ensures ScanFixed(text, |text|, 0, 0) == CallAt(text, n, 0)
  {
    assert ScanFixed(text, n + 3, 0, 0) == ScanFixed(text, n + 2, 0, 0);
    assert ScanFixed(text, n + 2, 0, 0) == ScanFixed(text, n + 1, 0, 0);
  }

  /** In `name({.`, the name before the paren is `name`. */
  lemma CallNameIsName(text: string, name: string)
    requires CallThenBrace(text, name)
    ensures CallName(text, |name|) == name
  {
    var n := |name|;
    assert text[n - 1] == name[n - 1];
    assert BlankStart(text, n) == n;
    forall i | 0 <= i < n ensures IsNameChar(text[i]) {
      assert text[i] == name[i];
    }
    NameRun(text, n);
    assert text[0..n] == name;
  }

  /** Name characters from the start of the text are all taken. */
  lemma {:induction false} NameRun(t: string, b: nat)
    requires b <= |t|
    requires forall i :: 0 <= i < b ==> IsNameChar(t[i])
    ensures NameStart(t, b) == 0
    decreases b
  {
    if b > 0 {
      NameRun(t, b - 1);
    }
  }

  /** The fix changes nothing on text without braces. */
  lemma {:induction false} FixedAgreesWithoutBraces(t: string, k: nat, depth: int, commas: nat)
    requires k <= |t|
    requires forall i :: 0 <= i < k ==> t[i] != '{'
    ensures ScanFixed(t, k, depth, commas) == Scan(t, k, depth, commas)
    decreases k
  {
    if k > 0 {
      var c := t[k - 1];
      if c == ')' || c == '}' {
        FixedAgreesWithoutBraces(t, k - 1, depth + 1, commas);
      } else if c == '(' {
        if depth != 0 {
          FixedAgreesWithoutBraces(t, k - 1, depth - 1, commas);
        }
      } else if c == ',' && depth == 0 {
        FixedAgreesWithoutBraces(t, k - 1, depth, commas + 1);
      } else {
        FixedAgreesWithoutBraces(t, k - 1, depth, commas);
      }
    }
  }

  // ---------------------------------------------------------------------
  // The chain walk of _get_word_before_dot
  // ---------------------------------------------------------------------

  /** The walk over the text `t` before the cursor, with `parts` the
      identifiers read so far in chain order (the Python list after its
      final `reverse()`). Moving the index back is modelled as reading a
      shorter prefix of the text. */
  function Walk(t: string, parts: seq<string>): seq<string>
    decreases |t|
  {
    var k1 := BlankStart(t, |t|);
    if k1 == 0 then parts
    else if t[k1 - 1] == '.' && parts != [] then Walk(t[..k1 - 1], parts)
    else
      var s := WordStart(t, k1);
      if s == k1 then parts
      else if s > 0 && t[s - 1] == '.' then Walk(t[..s - 1], [t[s..k1]] + parts)
      else [t[s..k1]] + parts
  }

  /** The `chain_parts` of the text before the dot. */
  function ChainParts(textBefore: string): (r: seq<string>)
    ensures Identifiers(r)
  {
    WalkIdentifiers(textBefore, []);
    Walk(textBefore, [])
  }

  /** The walk only adds non-empty identifiers in front of what it has. */
  lemma {:induction false} WalkIdentifiers(t: string, parts: seq<string>)
    requires Identifiers(parts)
    ensures Identifiers(Walk(t, parts))
    decreases |t|
  {
    var k1 := BlankStart(t, |t|);
    if k1 > 0 {
      if t[k1 - 1] == '.' && parts != [] {
        WalkIdentifiers(t[..k1 - 1], parts);
      } else {
        var s := WordStart(t, k1);
        if s < k1 {
          var word := t[s..k1];
          assert AllWord(word);
          assert Identifiers([word] + parts);
          if s > 0 && t[s - 1] == '.' {
            WalkIdentifiers(t[..s - 1], [word] + parts);
          }
        }
      }
    }
  }

  /** The `prefix_text`: the parts joined with dots. */
  function ChainText(textBefore: string): string {
    Join(ChainParts(textBefore), ".")
  }

  /** What may stand before a chain: nothing, or text whose last character
      neither continues an identifier nor is a dot. */
  predicate ChainBoundary(prefix: string) {
    prefix == [] || (!IsWordChar(prefix[|prefix| - 1]) && prefix[|prefix| - 1] != '.')
  }

  /** Non-empty identifiers. */
  predicate Identifiers(parts: seq<string>) {
    forall i :: 0 <= i < |parts| ==> parts[i] != [] && AllWord(parts[i])
  }

  /** Reading back a chain written after a boundary gives its parts. */
  lemma ChainRoundTrip(prefix: string, parts: seq<string>)
    requires ChainBoundary(prefix) && parts != [] && Identifiers(parts)
    ensures ChainParts(prefix + Join(parts, ".")) == parts
    ensures ChainText(prefix + Join(parts, ".")) == Join(parts, ".")
  {
    WalkJoin(prefix, parts, []);
    assert parts + [] == parts;
  }

  /** A run of word characters after a non-word character is where the
      backward word scan stops. */
  lemma {:induction false} WordRun(t: string, a: nat, b: nat)
    requires a <= b <= |t|
    requires forall i :: a <= i < b ==> IsWordChar(t[i])
    requires a == 0 || !IsWordChar(t[a - 1])
    ensures WordStart(t, b) == a
    decreases b
  {
    if b > a {
      WordRun(t, a, b - 1);
    }
  }

  /** One identifier at the end of `t`, after a boundary or a dot. */
  lemma LastIdentifier(t: string, front: string, last: string)
    requires t == front + last && last != [] && AllWord(last)
    requires front == [] || !IsWordChar(front[|front| - 1])
    ensures BlankStart(t, |t|) == |t|
    ensures WordStart(t, |t|) == |front|
  {
    assert t[|t| - 1] == last[|last| - 1];
    forall i | |front| <= i < |t| ensures IsWordChar(t[i]) {
      assert t[i] == last[i - |front|];
    }
    if |front| > 0 {
      assert t[|front| - 1] == front[|front| - 1];
    }
    WordRun(t, |front|, |t|);
  }

  /** The walk over a whole text that is a chain's first identifier. */
  lemma WalkFirst(t: string, prefix: string, last: string, acc: seq<string>)
    requires t == prefix + last && last != [] && AllWord(last)
    requires ChainBoundary(prefix)
    ensures Walk(t, acc) == [last] + acc
  {
    LastIdentifier(t, prefix, last);
    BackOf(prefix, last);
    if prefix != [] {
      assert t[|prefix| - 1] == prefix[|prefix| - 1];
    }
  }

  /** The walk over a dot and an identifier moves on to the text before
      the dot, carrying the identifier. */
  lemma WalkDot(t: string, inner: string, last: string, acc: seq<string>)
    requires t == inner + ("." + last) && last != [] && AllWord(last)
    ensures Walk(t, acc) == Walk(inner, [last] + acc)
  {
    var front := inner + ".";
    assert t == front + last;
    LastIdentifier(t, front, last);
    BackOf(front, last);
    assert t[|front| - 1] == '.';
    FrontOf(inner, "." + last);
  }

  lemma {:induction false} WalkJoin(prefix: string, parts: seq<string>, acc: seq<string>)
    requires ChainBoundary(prefix) && parts != [] && Identifiers(parts)
    ensures Walk(prefix + Join(parts, "."), acc) == parts + acc
    decreases |parts|
  {
    var last := parts[|parts| - 1];
    var init := parts[..|parts| - 1];
    assert parts == init + [last];
    if init == [] {
      assert Join(parts, ".") == last;
      WalkFirst(prefix + last, prefix, last, acc);
    } else {
      var inner := prefix + Join(init, ".");
      JoinAppend(init, last, ".");
      AppendDot(prefix, Join(init, "."), last);
      WalkDot(prefix + Join(parts, "."), inner, last, acc);
      assert Identifiers(init);
      WalkJoin(prefix, init, [last] + acc);
      ConsLast(init, last, acc);
    }
  }

  lemma AppendDot(prefix: string, j: string, last: string)
    ensures prefix + (j + "." + last) == (prefix + j) + ("." + last)
  {
  }

  lemma FrontOf(a: string, b: string)
    ensures (a + b)[..|a|] == a
  {
  }

  lemma BackOf(a: string, b: string)
    ensures (a + b)[|a|..|a + b|] == b
  {
  }

  lemma ConsLast(init: seq<string>, last: string, acc: seq<string>)
    ensures init + ([last] + acc) == (init + [last]) + acc
  {
  }
}
