/** What `parse_file` does to a single line before and while it decides
    what the line declares (odin_plugin.py:283-343 and 345-513): comment
    removal, and recognisers for the line shapes matched by regular
    expressions. Every recogniser is the deterministic reading of its
    pattern, anchored at the start of the text. */
module Lines {
  import opened Wrappers
  import opened Text
  import opened Symbols
  import opened Bodies

  // ---------------------------------------------------------------------
  // Comments (odin_plugin.py:285-308)
  // ---------------------------------------------------------------------

  // `re.sub(r'/\*.*?\*/', '', s)`: every `/* ... */` span found from left
  // to right, each closed by the nearest `*/`, is removed.
  function RemoveBlockComments(s: string): (r: string)
    ensures |r| <= |s|
    ensures !Contains(s, "/*") ==> r == s
    decreases |s|
  {
    var i := Find(s, "/*");
    if i == -1 then s
    else
      var j := FindFrom(s, "*/", i + 2);
      if j == -1 then s
      else s[..i] + RemoveBlockComments(s[j + 2..])
  }

  // Text with no `*/` carries no closed comment and is left as it is.
  lemma NoCloserNoRemoval(s: string)
    requires !Contains(s, "*/")
    ensures RemoveBlockComments(s) == s
  {
    var i := Find(s, "/*");
    if i != -1 {
      assert FindFrom(s, "*/", i + 2) == -1;
    }
  }

  lemma OpenerAt(x: string, rest: string)
    requires !Contains(x, "/*")
    ensures Find(x + "/*" + rest, "/*") == |x|
  {
    var s := x + "/*" + rest;
    assert OccursAt(s, "/*", |x|) by {
      assert s[|x|..|x| + 2] == "/*";
    }
    forall i | 0 <= i < |x| ensures !OccursAt(s, "/*", i) {
      if i < |x| - 1 {
        assert !OccursAt(x, "/*", i);
        assert s[i..i + 2] == x[i..i + 2];
      } else {
        assert s[i + 1] == '/';
      }
    }
  }

  lemma CloserAt(x: string, c: string, y: string)
    requires !Contains(c, "*/")
    ensures FindFrom(x + "/*" + c + "*/" + y, "*/", |x| + 2) == |x| + 2 + |c|
  {
    FirstCloser(c, y);
    assert x + "/*" + c + "*/" + y == (x + "/*") + (c + "*/" + y);
    FindFromShift(x + "/*", c + "*/" + y, "*/", 0);
  }

  // The first closer after a comment text without one ends that text.
  lemma FirstCloser(c: string, y: string)
    requires !Contains(c, "*/")
    ensures FindFrom(c + "*/" + y, "*/", 0) == |c|
  {
    var u := c + "*/" + y;
    assert OccursAt(u, "*/", |c|) by {
      assert u[|c|..|c| + 2] == "*/";
    }
    forall k | 0 <= k < |c| ensures !OccursAt(u, "*/", k) {
      if k < |c| - 1 {
        assert !OccursAt(c, "*/", k);
        assert u[k..k + 2] == c[k..k + 2];
      } else {
        assert u[k + 1] == '*';
      }
    }
  }

  // A closed comment after comment-free text is cut out, and removal
  // carries on after it.
  lemma ClosedCommentRemoved(x: string, c: string, y: string)
    requires !Contains(x, "/*") && !Contains(c, "*/")
    ensures RemoveBlockComments(x + "/*" + c + "*/" + y) == x + RemoveBlockComments(y)
  {
    var s := x + "/*" + c + "*/" + y;
    assert s == x + "/*" + (c + "*/" + y);
    OpenerAt(x, c + "*/" + y);
    CloserAt(x, c, y);
    var j := |x| + 2 + |c|;
    assert s[..|x|] == x;
    assert s[j + 2..] == y;
  }

  /** The outcome of the comment handling for one line: the text left to
      read, whether a block comment is open afterwards, and whether the line
      is dropped (`continue`). */
  datatype Cleaned = Cleaned(text: string, inBlock: bool, skip: bool)

  /** The comment handling of `parse_file` for one stripped line, given
      whether a block comment was open before it. */
  function CleanLine(stripped: string, inBlock: bool): (r: Cleaned)
    ensures inBlock && !Contains(stripped, "*/") ==> r.skip && r.inBlock
    ensures inBlock && Contains(stripped, "*/") ==>
      r == CleanLine(Strip(stripped[Find(stripped, "*/") + 2..]), false)
    ensures !r.skip ==> r.text != []
    ensures !inBlock && !Contains(stripped, "/*") && !Contains(stripped, "//") ==>
      r == Cleaned(stripped, false, stripped == [])
    decreases inBlock
  {
    if inBlock && !Contains(stripped, "*/") then Cleaned(stripped, true, true)
    else
      var afterClose := if inBlock then Strip(stripped[Find(stripped, "*/") + 2..]) else stripped;
      if inBlock && afterClose == [] then Cleaned(afterClose, false, true)
      else
        var afterOpen := OpenComment(afterClose);
        if afterOpen.skip then afterOpen
        else
          var t := LineCommentCut(afterOpen.text);
          Cleaned(t, afterOpen.inBlock, t == [])
  }

  // The `/*` handling: a comment closed on the same line is removed; an
  // unclosed one cuts the line and stays open.
  function OpenComment(s: string): (r: Cleaned)
    ensures !Contains(s, "/*") ==> r == Cleaned(s, false, false)
    ensures r.skip ==> r.inBlock
  {
    if !Contains(s, "/*") then Cleaned(s, false, false)
    else
      var ci := Find(s, "/*");
      if Contains(s[ci..], "*/") then Cleaned(Strip(RemoveBlockComments(s)), false, false)
      else
        var t := Strip(s[..ci]);
        Cleaned(t, true, t == [])
  }

  /** The `//` handling: the text is cut at the first `//` when an even
      number of quotes precedes it (so the `//` is taken to be outside any
      string). */
  function LineCommentCut(s: string): (r: string)
    ensures !Contains(s, "//") ==> r == s
    ensures Contains(s, "//") && CountChar(s[..Find(s, "//")], '"') % 2 == 0 ==>
      r == Strip(s[..Find(s, "//")])
    ensures Contains(s, "//") && CountChar(s[..Find(s, "//")], '"') % 2 == 1 ==> r == s
  {
    var cc := Find(s, "//");
    if cc >= 0 && CountChar(s[..cc], '"') % 2 == 0 then Strip(s[..cc]) else s
  }

  // ---------------------------------------------------------------------
  // `package` and `import` lines (odin_plugin.py:345-361)
  // ---------------------------------------------------------------------

  /** `re.match(r'^package\s+(\w+)', s)`: the package name. */
  function PackageName(s: string): (r: Option<string>)
    ensures r.Some? ==> Ident(r.value) && StartsWith(s, "package")
  {
    if !StartsWith(s, "package") then None
    else
      var i := SkipSpaces(s, 7);
      var w := SkipWord(s, i);
      if i == 7 || w == i then None else Some(s[i..w])
  }

  /** `package name` reads back as `name`, whatever follows the name. */
  lemma PackageRoundTrip(name: string, tail: string)
    requires Ident(name)
    requires tail == [] || !IsWordChar(tail[0])
    ensures PackageName("package " + name + tail) == Some(name)
  {
    var s := "package " + name + tail;
    assert StartsWith(s, "package");
    assert SkipSpaces(s, 7) == 8 by {
      assert IsSpace(s[7]) && s[8] == name[0];
    }
    assert SkipWord(s, 8) == 8 + |name| by {
      SkipWordOver(s, 8, name);
    }
    assert s[8..8 + |name|] == name;
  }

  /** A word sitting at `from` is skipped whole when a non-word follows. */
  lemma {:induction false} SkipWordOver(s: string, from: nat, w: string)
    requires from + |w| <= |s| && s[from..from + |w|] == w && AllWord(w)
    requires from + |w| == |s| || !IsWordChar(s[from + |w|])
    ensures SkipWord(s, from) == from + |w|
    decreases |w|
  {
    if w != [] {
      assert s[from] == w[0];
      assert s[from + 1..from + 1 + |w[1..]|] == w[1..];
      SkipWordOver(s, from + 1, w[1..]);
    }
  }

  /** The text between the quote at `q` and the next quote, when both are
      there and the text is not empty (`"([^"]+)"`). */
  function QuotedAt(s: string, q: nat): (r: Option<string>)
    requires q < |s|
    ensures r.Some? ==> r.value != [] && '"' !in r.value
  {
    var k := FindChar(s[q + 1..], '"');
    if k <= 0 then None else Some(s[q + 1..q + 1 + k])
  }

  /** `path.split(':', 1)` when the path has a colon: the collection before
      the first colon and the path after it. */
  function SplitCollection(path: string): (r: (string, string))
    ensures ':' in path ==> r.0 + ":" + r.1 == path && ':' !in r.0
    ensures ':' !in path ==> r == ([], path)
  {
    var i := FindChar(path, ':');
    if i == -1 then ([], path)
    else
      assert path == path[..i] + ":" + path[i + 1..];
      (path[..i], path[i + 1..])
  }

  /** The alias an unaliased import gets: the last component of the path
      once trailing slashes are removed (`rel_path.rstrip('/').rsplit('/', 1)[-1]`). */
  function DefaultAlias(relPath: string): (r: string)
    ensures '/' !in r
  {
    AfterLast(RStripAny(relPath, {'/'}), '/')
  }

  /** The default alias is the last path component, and trailing slashes
      do not change it. */
  lemma DefaultAliasLastComponent(dir: string, name: string, slashes: nat)
    requires name != [] && '/' !in name
    ensures DefaultAlias(dir + "/" + name + Slashes(slashes)) == name
    ensures DefaultAlias(name) == name
  {
    var s := dir + "/" + name + Slashes(slashes);
    StripSlashes(dir + "/" + name, slashes);
    var t := dir + "/" + name;
    assert t[|dir|] == '/';
    assert t[|dir| + 1..] == name;
    assert RFindChar(t, '/') == |dir|;
    StripSlashes(name, 0);
    assert name + Slashes(0) == name;
  }

  function Slashes(n: nat): (r: string)
    ensures |r| == n && forall i :: 0 <= i < n ==> r[i] == '/'
  {
    if n == 0 then [] else "/" + Slashes(n - 1)
  }

  lemma StripSlashes(s: string, n: nat)
    requires s != [] && s[|s| - 1] != '/'
    ensures RStripAny(s + Slashes(n), {'/'}) == s
  {
    var t := s + Slashes(n);
    var r := RStripAny(t, {'/'});
    assert t[|s| - 1] !in {'/'};
    assert |r| >= |s|;
    assert r == t[..|s|] == s;
  }

  /** The import an `import` line declares, given its alias (possibly
      empty) and its quoted path; nothing is resolved yet. */
  function ImportFromPath(alias: string, path: string): (r: Import)
    ensures r.resolvedDir == []
    ensures ':' in path ==> r.collection + ":" + r.relPath == path && ':' !in r.collection
    ensures ':' !in path ==> r.collection == [] && r.relPath == path
    ensures alias != [] ==> r.alias == alias
    ensures alias == [] ==> r.alias == DefaultAlias(r.relPath)
  {
    var (collection, relPath) := SplitCollection(path);
    Import(if alias != [] then alias else DefaultAlias(relPath), collection, relPath, [])
  }

  /** `re.match(r'^import\s+(?:(\w+)\s+)?"([^"]+)"', s)`, read into an
      import. */
  function ImportOf(s: string): Option<Import> {
    if !StartsWith(s, "import") then None
    else
      var i := SkipSpaces(s, 6);
      if i == 6 || i == |s| then None
      else if s[i] == '"' then
        match QuotedAt(s, i)
        case None => None
        case Some(path) => Some(ImportFromPath([], path))
      else
        var w := SkipWord(s, i);
        var j := SkipSpaces(s, w);
        if w == i || j == w || j == |s| || s[j] != '"' then None
        else
          match QuotedAt(s, j)
          case None => None
          case Some(path) => Some(ImportFromPath(s[i..w], path))
  }

  /** `import name "path"` reads back as that alias and path. */
  lemma ImportRoundTrip(alias: string, path: string, tail: string)
    requires Ident(alias)
    requires path != [] && '"' !in path
    ensures ImportOf("import " + alias + " " + "\"" + path + "\"" + tail) == Some(ImportFromPath(alias, path))
  {
    var pre := "import " + alias + " ";
    var s := pre + "\"" + path + "\"" + tail;
    var w := 7 + |alias|;
    ImportLineLayout(alias, path, tail);
    OneSpaceAt(s, 6);
    SkipWordOver(s, 7, alias);
    OneSpaceAt(s, w);
    QuotedAfter(pre, path, tail);
    ImportAliasedAt(s, w, alias, path);
  }

  /** `ImportOf` read off where the alias ends at `w`, one blank follows
      it and the quoted path comes next. */
  lemma ImportAliasedAt(s: string, w: nat, alias: string, path: string)
    requires StartsWith(s, "import") && w + 1 < |s| && 7 < w
    requires SkipSpaces(s, 6) == 7 && s[7] != '"' && SkipWord(s, 7) == w && s[7..w] == alias
    requires SkipSpaces(s, w) == w + 1 && s[w + 1] == '"' && QuotedAt(s, w + 1) == Some(path)
    ensures ImportOf(s) == Some(ImportFromPath(alias, path))
  {
  }

  /** Where the pieces of `import alias "path"` sit. */
  lemma ImportLineLayout(alias: string, path: string, tail: string)
    requires Ident(alias)
    ensures var s := "import " + alias + " " + "\"" + path + "\"" + tail;
      && var w := 7 + |alias|;
      && w + 1 < |s| && StartsWith(s, "import") && s[6] == ' ' && s[7] == alias[0]
      && s[7..w] == alias && s[w] == ' ' && s[w + 1] == '"'
      && (w == |s| || !IsWordChar(s[w]))
  {
    var s := "import " + alias + " " + "\"" + path + "\"" + tail;
    assert s[..6] == "import";
    assert s[..7 + |alias|] == "import " + alias;
  }

  lemma OneSpaceAt(s: string, k: nat)
    requires k + 1 < |s| && IsSpace(s[k]) && !IsSpace(s[k + 1])
    ensures SkipSpaces(s, k) == k + 1
  {
  }

  lemma ImportRoundTripUnaliased(path: string, tail: string)
    requires path != [] && '"' !in path
    ensures ImportOf("import \"" + path + "\"" + tail) == Some(ImportFromPath([], path))
  {
    var pre := "import ";
    var s := pre + "\"" + path + "\"" + tail;
    assert s == "import \"" + path + "\"" + tail;
    assert StartsWith(s, "import") by {
      assert s[..6] == "import";
    }
    assert SkipSpaces(s, 6) == 7 by {
      assert IsSpace(s[6]) && s[7] == '"';
    }
    QuotedAfter(pre, path, tail);
  }

  lemma QuotedAfter(pre: string, path: string, tail: string)
    requires path != [] && '"' !in path
    ensures QuotedAt(pre + "\"" + path + "\"" + tail, |pre|) == Some(path)
  {
    var s := pre + "\"" + path + "\"" + tail;
    var t := s[|pre| + 1..];
    assert t == path + "\"" + tail;
    assert t[..|path|] == path;
    FindCharAt(t, '"', |path|);
    assert s[|pre| + 1..|pre| + 1 + |path|] == path;
  }

  // ---------------------------------------------------------------------
  // Attributes (odin_plugin.py:385-394)
  // ---------------------------------------------------------------------

  /** The end of `re.match(r'^@(?:\w+|\([^)]*\))\s*', s)`: `@`, then a
      word or a parenthesised list, then any whitespace. */
  function AttributeEnd(s: string): (r: Option<nat>)
    ensures r.Some? ==> 2 <= r.value <= |s| && s[0] == '@'
    ensures r.Some? ==> r.value == |s| || !IsSpace(s[r.value])
  {
    if |s| < 2 || s[0] != '@' then None
    else if IsWordChar(s[1]) then Some(SkipSpaces(s, SkipWord(s, 1)))
    else if s[1] == '(' then
      var k := FindChar(s[2..], ')');
      if k == -1 then None else Some(SkipSpaces(s, 2 + k + 1))
    else None
  }

  /** `@word` followed by blanks ends where the next text begins. */
  lemma AttributeWordRoundTrip(w: string, x: string)
    requires Ident(w) && (x == [] || !IsSpace(x[0]))
    ensures AttributeEnd("@" + w + " " + x) == Some(|w| + 2)
  {
    var s := "@" + w + " " + x;
    assert s[1..1 + |w|] == w && s[1] == w[0];
    SkipWordOver(s, 1, w);
    assert s[|w| + 2..] == x;
    if x != [] {
      assert s[|w| + 2] == x[0];
    }
    assert SkipSpaces(s, |w| + 2) == |w| + 2;
  }

  /** `@(...)` followed by blanks ends where the next text begins. */
  lemma AttributeListRoundTrip(inner: string, x: string)
    requires ')' !in inner && (x == [] || !IsSpace(x[0]))
    ensures AttributeEnd("@(" + inner + ")" + x) == Some(|inner| + 3)
  {
    var s := "@(" + inner + ")" + x;
    assert s[..2] == "@(";
    assert s[2..] == inner + ")" + x;
    ClosingParenAt(inner, x);
    assert s[|inner| + 3..] == x;
    if x != [] {
      assert s[|inner| + 3] == x[0];
    }
    AttributeListAt(s, |inner|);
  }

  /** In `inner)x`, the first `)` is the one after `inner`. */
  lemma ClosingParenAt(inner: string, x: string)
    requires ')' !in inner
    ensures FindChar(inner + ")" + x, ')') == |inner|
  {
    var u := inner + ")" + x;
    assert u[..|inner|] == inner;
    FindCharAt(u, ')', |inner|);
  }

  /** `AttributeEnd` read off where the `)` and the text after it are
      known. */
  lemma AttributeListAt(s: string, k: nat)
    requires |s| >= 2 && s[..2] == "@(" && FindChar(s[2..], ')') == k
    requires k + 3 == |s| || !IsSpace(s[k + 3])
    ensures AttributeEnd(s) == Some(k + 3)
  {
    assert s[0] == '@' && s[1] == '(';
    assert SkipSpaces(s, k + 3) == k + 3;
  }

  // ---------------------------------------------------------------------
  // Declaration heads (odin_plugin.py:375-376 and 495-496)
  // ---------------------------------------------------------------------

  /** A name and the text after its `::` or `:=`. */
  datatype Head = Head(name: string, rest: string)

  /** `re.match(r'^(\w+)\s*::\s*(.*)', s)`: the declared name and the
      stripped text after `::`. */
  function DeclHead(s: string): (r: Option<Head>)
    ensures r.Some? ==> Ident(r.value.name) && StartsWith(s, r.value.name)
    ensures r.Some? ==> OccursAt(s, "::", SkipSpaces(s, SkipWord(s, 0)))
  {
    var w := SkipWord(s, 0);
    var i := SkipSpaces(s, w);
    if w == 0 || !OccursAt(s, "::", i) then None
    else Some(Head(s[..w], Strip(s[SkipSpaces(s, i + 2)..])))
  }

  /** `re.match(r'^(\w+)\s*:=\s*(.*)', s)`: the declared name and the text
      after `:=` (not stripped). */
  function WalrusHead(s: string): (r: Option<Head>)
    ensures r.Some? ==> Ident(r.value.name) && StartsWith(s, r.value.name)
  {
    var w := SkipWord(s, 0);
    var i := SkipSpaces(s, w);
    if w == 0 || !OccursAt(s, ":=", i) then None
    else Some(Head(s[..w], s[SkipSpaces(s, i + 2)..]))
  }

  /** `name :: rest` reads back as `name` and the stripped `rest`. */
  lemma DeclHeadRoundTrip(name: string, rest: string)
    requires Ident(name)
    ensures DeclHead(name + " :: " + rest) == Some(Head(name, Strip(rest)))
  {
    var s := name + " :: " + rest;
    var w := |name|;
    DeclHeadMarker(name, rest);
    var k := SkipSpaces(s, w + 3);
    assert DeclHead(s) == Some(Head(s[..w], Strip(s[k..])));
    assert s[..w] == name;
    DeclHeadRest(name, rest);
  }

  /** In `name :: rest` the word is the name and `::` follows one blank. */
  lemma DeclHeadMarker(name: string, rest: string)
    requires Ident(name)
    ensures var s := name + " :: " + rest;
      SkipWord(s, 0) == |name| && SkipSpaces(s, |name|) == |name| + 1 && OccursAt(s, "::", |name| + 1)
  {
    DeclHeadWord(name, rest);
    DeclHeadGap(name, rest);
    DeclHeadColons(name, rest);
  }

  lemma DeclHeadWord(name: string, rest: string)
    requires Ident(name)
    ensures SkipWord(name + " :: " + rest, 0) == |name|
  {
    var s := name + " :: " + rest;
    assert s[..|name|] == name;
    assert s[|name|] == ' ';
    SkipWordOver(s, 0, name);
  }

  lemma DeclHeadGap(name: string, rest: string)
    ensures SkipSpaces(name + " :: " + rest, |name|) == |name| + 1
  {
    var s := name + " :: " + rest;
    assert IsSpace(s[|name|]) && s[|name| + 1] == ':';
  }

  lemma DeclHeadColons(name: string, rest: string)
    ensures OccursAt(name + " :: " + rest, "::", |name| + 1)
  {
    var s := name + " :: " + rest;
    assert s[|name| + 1..|name| + 3] == "::";
  }

  /** What follows `name :: ` strips to the stripped `rest`. */
  lemma DeclHeadRest(name: string, rest: string)
    ensures var s := name + " :: " + rest;
      Strip(s[SkipSpaces(s, |name| + 3)..]) == Strip(rest)
  {
    var s := name + " :: " + rest;
    StripAfterSkip(s, |name| + 3);
    assert s[|name| + 3..] == " " + rest;
    StripBlankFront(rest);
  }

  lemma StripBlankFront(rest: string)
    ensures Strip(" " + rest) == Strip(rest)
  {
    assert (" " + rest)[1..] == rest;
  }

  /** Skipping blanks does not change what a suffix strips to. */
  lemma {:induction false} StripAfterSkip(s: string, from: nat)
    requires from <= |s|
    ensures Strip(s[SkipSpaces(s, from)..]) == Strip(s[from..])
    decreases |s| - from
  {
    if from < |s| && IsSpace(s[from]) {
      StripAfterSkip(s, from + 1);
      assert s[from..][1..] == s[from + 1..];
    }
  }

  // ---------------------------------------------------------------------
  // What follows `::` (odin_plugin.py:392-486)
  // ---------------------------------------------------------------------

  /** `re.match(r'proc\s*\{', rest)`: a procedure group. */
  predicate ProcGroupHead(rest: string) {
    StartsWith(rest, "proc") && SkipSpaces(rest, 4) < |rest| && rest[SkipSpaces(rest, 4)] == '{'
  }

  /** `re.match(r'(?:#\w+\s+)?proc\s*(?:"[^"]*"\s*)?\(', rest)`: a procedure,
      possibly after one `#directive`. */
  predicate ProcHead(rest: string) {
    if rest != [] && rest[0] == '#' then
      var w := SkipWord(rest, 1);
      var k := SkipSpaces(rest, w);
      w > 1 && k > w && ProcParenAt(rest, k).Some?
    else ProcParenAt(rest, 0).Some?
  }

  /** `re.match(r'struct\s*(?:\([^)]*\)\s*)?\{', rest)`: a struct, possibly
      with a parenthesised directive list. */
  predicate StructHead(rest: string) {
    && StartsWith(rest, "struct")
    && var k := SkipSpaces(rest, 6);
       && k < |rest|
       && (|| rest[k] == '{'
           || (rest[k] == '('
               && var c := FindChar(rest[k + 1..], ')');
                  && c != -1
                  && var m := SkipSpaces(rest, k + 1 + c + 1);
                     m < |rest| && rest[m] == '{'))
  }

  /** `re.match(r'enum\s*(?:\w+\s*)?\{', rest)`: an enum, possibly with a
      backing type. */
  predicate EnumHead(rest: string) {
    && StartsWith(rest, "enum")
    && var k := SkipSpaces(rest, 4);
       && k < |rest|
       && (|| rest[k] == '{'
           || (var w := SkipWord(rest, k);
               var m := SkipSpaces(rest, w);
               w > k && m < |rest| && rest[m] == '{'))
  }

  /** `re.match(r'union\s*\{', rest)` */
  predicate UnionHead(rest: string) {
    StartsWith(rest, "union") && SkipSpaces(rest, 5) < |rest| && rest[SkipSpaces(rest, 5)] == '{'
  }

  /** `re.match(r'(?:distinct\s+)?bit_set\[(\w+)', rest)`: the element type
      of a bit set. */
  function BitSetEnum(rest: string): (r: Option<string>)
    ensures r.Some? ==> Ident(r.value)
  {
    var start := BitSetStart(rest);
    if !OccursAt(rest, "bit_set[", start) then None
    else
      var w := SkipWord(rest, start + 8);
      if w == start + 8 then None else Some(rest[start + 8..w])
  }

  /** Where `bit_set[` has to start: after `distinct` and its blanks, or at
      the beginning. */
  function BitSetStart(rest: string): (r: nat)
    ensures r <= |rest|
  {
    if StartsWith(rest, "distinct") && SkipSpaces(rest, 8) > 8 then SkipSpaces(rest, 8) else 0
  }

  /** Text that never mentions `bit_set[` is no bit set. */
  lemma BitSetNeedsPattern(rest: string)
    requires !Contains(rest, "bit_set[")
    ensures BitSetEnum(rest).None?
  {
    assert !OccursAt(rest, "bit_set[", BitSetStart(rest));
  }

  /** `bit_set[E]...` and `distinct bit_set[E]...` read back as `E`. */
  lemma BitSetRoundTrip(e: string, x: string)
    requires Ident(e)
    ensures BitSetEnum("bit_set[" + e + "]" + x) == Some(e)
    ensures BitSetEnum("distinct bit_set[" + e + "]" + x) == Some(e)
  {
    BitSetPlain(e, x);
    BitSetDistinct(e, x);
  }

  lemma BitSetPlain(e: string, x: string)
    requires Ident(e)
    ensures BitSetEnum("bit_set[" + e + "]" + x) == Some(e)
  {
    var p := "bit_set[" + e + "]" + x;
    assert p[0] == 'b';
    assert BitSetStart(p) == 0;
    assert p[0..] == p;
    BitSetAt(p, 0, e);
  }

  lemma BitSetDistinct(e: string, x: string)
    requires Ident(e)
    ensures BitSetEnum("distinct bit_set[" + e + "]" + x) == Some(e)
  {
    var p := "bit_set[" + e + "]" + x;
    var d := "distinct bit_set[" + e + "]" + x;
    assert d == "distinct " + p;
    assert d[..8] == "distinct" && d[8] == ' ' && d[9] == p[0] == 'b';
    assert SkipSpaces(d, 8) == 9;
    assert BitSetStart(d) == 9;
    assert d[9..] == p;
    BitSetAt(d, 9, e);
  }

  /** `bit_set[` at `start`, then the word `e` and a `]`: the element type
      is `e`. */
  lemma BitSetAt(rest: string, start: nat, e: string)
    requires Ident(e)
    requires start == BitSetStart(rest)
    requires StartsWith(rest[start..], "bit_set[" + e + "]")
    ensures BitSetEnum(rest) == Some(e)
  {
    BitSetLayout(rest, start, e);
    assert rest[start + 8..start + 8 + |e|] == e;
  }

  lemma BitSetLayout(rest: string, start: nat, e: string)
    requires Ident(e) && start <= |rest|
    requires StartsWith(rest[start..], "bit_set[" + e + "]")
    ensures OccursAt(rest, "bit_set[", start)
    ensures start + 8 + |e| < |rest| && rest[start + 8..start + 8 + |e|] == e
    ensures SkipWord(rest, start + 8) == start + 8 + |e|
  {
    var t := rest[start..];
    assert t[..8 + |e| + 1] == "bit_set[" + e + "]";
    assert rest[start..start + 8] == t[..8] == "bit_set[";
    assert rest[start + 8..start + 8 + |e|] == t[8..8 + |e|] == e;
    assert rest[start + 8 + |e|] == t[8 + |e|] == ']';
    SkipWordOver(rest, start + 8, e);
  }

  /** `re.search(r'\{(.*)\}', rest)` on one line: the text from the first
      `{` that has a `}` after it to the last `}`. */
  function BraceBody(rest: string): (r: Option<string>)
    ensures '}' !in rest ==> r.None?
    ensures r.Some? ==> |r.value| + 2 <= |rest|
  {
    var close := RFindChar(rest, '}');
    if close == -1 then None
    else
      var open := FindChar(rest[..close], '{');
      if open == -1 then None else Some(rest[open + 1..close])
  }

  /** A body written between one pair of braces is found again. */
  lemma BraceBodyRoundTrip(head: string, body: string, tail: string)
    requires '{' !in head && '}' !in body && '}' !in tail
    ensures BraceBody(head + "{" + body + "}" + tail) == Some(body)
  {
    var s := head + "{" + body + "}" + tail;
    var c := |head| + 1 + |body|;
    assert s[c] == '}';
    assert s[c + 1..] == tail;
    assert RFindChar(s, '}') == c;
    assert s[..c] == head + "{" + body;
    assert s[..c][..|head|] == head;
    FindCharAt(s[..c], '{', |head|);
    assert s[|head| + 1..c] == body;
  }

  /** The net change in `{`/`}` nesting a line brings. */
  function NetBraces(s: string): int {
    CountChar(s, '{') - CountChar(s, '}')
  }

  /** The net change in `(`/`)` nesting a line brings. */
  function NetParens(s: string): int {
    CountChar(s, '(') - CountChar(s, ')')
  }
}
