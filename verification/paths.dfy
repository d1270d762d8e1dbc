/** Path text as the indexer handles it: backslashes turned into slashes
    (`_normalize_path`, odin_plugin.py:96-97) and the POSIX `dirname` and
    `join` of Python's `os.path`. */
module Paths {
  import opened Text

  /** `_normalize_path(p)`: every backslash becomes a forward slash and
      nothing else changes. */
  function Normalize(p: string): (r: string)
    ensures |r| == |p|
    ensures forall i :: 0 <= i < |p| ==> r[i] == (if p[i] == '\\' then '/' else p[i])
    ensures '\\' !in r
  {
    if p == [] then [] else [if p[0] == '\\' then '/' else p[0]] + Normalize(p[1..])
  }

  /** A path without backslashes is already normal, so normalising twice
      is normalising once. */
  lemma NormalizeIdempotent(p: string)
    ensures '\\' !in p ==> Normalize(p) == p
    ensures Normalize(Normalize(p)) == Normalize(p)
  {
  }

  predicate AllSlashes(s: string) {
    forall i :: 0 <= i < |s| ==> s[i] == '/'
  }

  /** `os.path.dirname(p)` (POSIX): everything before the last slash, with
      trailing slashes removed unless it consists of slashes only. */
  function Dirname(p: string): (r: string)
    ensures StartsWith(p, r)
    ensures '/' !in p ==> r == []
    ensures r != [] && !AllSlashes(r) ==> r[|r| - 1] != '/'
  {
    var i := RFindChar(p, '/') + 1;
    var head := p[..i];
    if head != [] && !AllSlashes(head) then RStripAny(head, {'/'}) else head
  }

  /** `os.path.join(a, b)` (POSIX): an absolute `b` replaces `a`; otherwise
      one slash separates them unless `a` is empty or already ends in one. */
  function PathJoin(a: string, b: string): (r: string)
    ensures StartsWith(b, "/") ==> r == b
    ensures !StartsWith(b, "/") ==> StartsWith(r, a) && EndsWith(r, b)
  {
    if StartsWith(b, "/") then b
    else if a == [] || EndsWith(a, "/") then a + b
    else a + "/" + b
  }

  /** The directory of a file joined onto a directory is that directory:
      `dirname(join(d, name)) == d` for a plain file name and a directory
      without a trailing slash. */
  lemma DirnameOfJoin(d: string, name: string)
    requires d != [] && d[|d| - 1] != '/'
    requires '/' !in name && name != []
    ensures Dirname(PathJoin(d, name)) == d
  {
    var p := d + "/" + name;
    assert !StartsWith(name, "/");
    assert !EndsWith(d, "/");
    assert PathJoin(d, name) == p;
    assert p[|d|] == '/';
    assert '/' !in p[|d| + 1..] by {
      assert p[|d| + 1..] == name;
    }
    assert RFindChar(p, '/') == |d|;
    var head := p[..|d| + 1];
    assert head == d + "/";
    assert !AllSlashes(head);
    assert RStripAny(head, {'/'}) == d by {
      assert head[..|head| - 1] == d;
    }
  }
}
