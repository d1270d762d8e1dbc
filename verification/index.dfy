/** The symbol index `OdinIndex` (odin_plugin.py:545-592 and 670-693):
    symbols by name, symbols by package directory, and what each file
    contributed. The index is a value; every operation returns the new
    index. */
module Index {
  import opened Wrappers
  import opened Text
  import opened Symbols
  import opened Paths
  import opened Parser

  type NameMap = map<string, seq<Symbol>>
  type PkgMap = map<string, map<string, Symbol>>

  /** The fields of `OdinIndex`. `roots` is `_odin_roots` (project folder,
      Odin root) in insertion order; nothing in this model adds to it, and
      `clear` keeps it. */
  datatype OdinIndex = OdinIndex(
    byName: NameMap,
    byPkg: PkgMap,
    fileSyms: map<string, seq<Symbol>>,
    fileImports: map<string, seq<Import>>,
    pkgNames: map<string, string>,
    roots: seq<(string, string)>)

  const Empty := OdinIndex(map[], map[], map[], map[], map[], [])

  // ---------------------------------------------------------------------
  // Lists and maps as the index reads them
  // ---------------------------------------------------------------------

  /** `m.get(k, [])` */
  function Get(m: NameMap, k: string): seq<Symbol> {
    if k in m then m[k] else []
  }

  /** `m.get(d, {})` */
  function GetPkg(m: PkgMap, d: string): map<string, Symbol> {
    if d in m then m[d] else map[]
  }

  /** `m.get(d, {}).get(n)` */
  function PkgGet(m: PkgMap, d: string, n: string): Option<Symbol> {
    if d in m && n in m[d] then Some(m[d][n]) else None
  }

  /** `[s for s in l if s.file != f]`: the list without the symbols of `f`,
      in order. */
  function Without(l: seq<Symbol>, f: string): (r: seq<Symbol>)
    ensures (forall i :: 0 <= i < |l| ==> l[i].file != f) ==> r == l
    ensures |r| <= |l|
  {
    if l == [] then []
    else (if l[0].file != f then [l[0]] else []) + Without(l[1..], f)
  }

  /** The filtered list holds exactly the symbols of other files. */
  lemma {:induction false} WithoutMembers(l: seq<Symbol>, f: string)
    ensures forall s :: s in Without(l, f) <==> s in l && s.file != f
  {
    if l != [] {
      WithoutMembers(l[1..], f);
      assert l == [l[0]] + l[1..];
    }
  }

  lemma {:induction false} WithoutAppend(a: seq<Symbol>, b: seq<Symbol>, f: string)
    ensures Without(a + b, f) == Without(a, f) + Without(b, f)
    decreases |a|
  {
    if a == [] {
      assert a + b == b;
    } else {
      var h := if a[0].file != f then [a[0]] else [];
      assert (a + b)[0] == a[0] && (a + b)[1..] == a[1..] + b;
      assert Without(a + b, f) == h + Without(a[1..] + b, f);
      WithoutAppend(a[1..], b, f);
      Assoc(h, Without(a[1..], f), Without(b, f));
    }
  }

  lemma WithoutIdempotent(l: seq<Symbol>, f: string)
    ensures Without(Without(l, f), f) == Without(l, f)
  {
    var w := Without(l, f);
    WithoutMembers(l, f);
    assert forall i :: 0 <= i < |w| ==> w[i].file != f by {
      forall i | 0 <= i < |w| ensures w[i].file != f {
        assert w[i] in w;
      }
    }
  }

  /** The names the symbols carry. */
  function NamesOf(syms: seq<Symbol>): set<string> {
    set i | 0 <= i < |syms| :: syms[i].name
  }

  lemma NamesOfCons(syms: seq<Symbol>)
    requires syms != []
    ensures NamesOf(syms) == {syms[0].name} + NamesOf(syms[1..])
  {
    assert forall i :: 1 <= i < |syms| ==> syms[i] == syms[1..][i - 1];
  }

  /** The symbols named `n`, in order. */
  function Named(syms: seq<Symbol>, n: string): (r: seq<Symbol>)
    ensures forall i :: 0 <= i < |r| ==> r[i].name == n && r[i] in syms
    ensures n !in NamesOf(syms) ==> r == []
  {
    if syms == [] then []
    else (if syms[0].name == n then [syms[0]] else []) + Named(syms[1..], n)
  }

  lemma Assoc(a: seq<Symbol>, b: seq<Symbol>, c: seq<Symbol>)
    ensures (a + b) + c == a + (b + c)
  {
  }

  /** Some symbol is filed under directory `d` and name `n`. */
  predicate Keyed(syms: seq<Symbol>, d: string, n: string) {
    exists i :: 0 <= i < |syms| && syms[i].packageDir == d && syms[i].name == n
  }

  /** The last symbol filed under directory `d` and name `n`: the one a
      loop that stores each symbol in turn leaves behind. */
  function Latest(syms: seq<Symbol>, d: string, n: string): (r: Option<Symbol>)
    ensures r.Some? <==> Keyed(syms, d, n)
    ensures r.Some? ==> r.value in syms && r.value.packageDir == d && r.value.name == n
    decreases |syms|
  {
    if syms == [] then None
    else
      var rest := Latest(syms[1..], d, n);
      if rest.Some? then
        assert rest.value in syms;
        rest
      else if syms[0].packageDir == d && syms[0].name == n then Some(syms[0])
      else
        assert !Keyed(syms, d, n) by {
          forall i | 0 <= i < |syms| ensures !(syms[i].packageDir == d && syms[i].name == n) {
            if i > 0 {
              assert syms[i] == syms[1..][i - 1];
            }
          }
        }
        None
  }

  // ---------------------------------------------------------------------
  // The loops of remove_file and index_file (odin_plugin.py:567-572, 590-592)
  // ---------------------------------------------------------------------

  /** `_by_name[sym.name] = [s for s in lst if s.file != f]` for each old
      symbol in turn. */
  function DropNames(m: NameMap, f: string, syms: seq<Symbol>): NameMap
    decreases |syms|
  {
    if syms == [] then m
    else
      var n0 := syms[0].name;
      DropNames(m[n0 := Without(Get(m, n0), f)], f, syms[1..])
  }

  /** Every name the file used is filtered (and kept as a key, even when
      its list becomes empty); every other name is as it was. */
  lemma {:induction false} DropNamesFilters(m: NameMap, f: string, syms: seq<Symbol>)
    ensures DropNames(m, f, syms).Keys == m.Keys + NamesOf(syms)
    ensures forall n :: n in DropNames(m, f, syms) ==>
      DropNames(m, f, syms)[n] == (if n in NamesOf(syms) then Without(Get(m, n), f) else m[n])
    decreases |syms|
  {
    if syms != [] {
      var n0 := syms[0].name;
      var m' := m[n0 := Without(Get(m, n0), f)];
      DropNamesFilters(m', f, syms[1..]);
      NamesOfCons(syms);
      WithoutIdempotent(Get(m, n0), f);
      var r := DropNames(m', f, syms[1..]);
      assert r == DropNames(m, f, syms);
      forall n | n in r
        ensures r[n] == (if n in NamesOf(syms) then Without(Get(m, n), f) else m[n])
      {
        if n == n0 {
          assert n in NamesOf(syms);
        } else {
          assert Get(m', n) == Get(m, n);
          assert n in NamesOf(syms) <==> n in NamesOf(syms[1..]);
        }
      }
    }
  }

  /** `_by_name[sym.name].append(sym)` for each new symbol in turn. */
  function AddNames(m: NameMap, syms: seq<Symbol>): NameMap
    decreases |syms|
  {
    if syms == [] then m
    else
      var s := syms[0];
      AddNames(m[s.name := Get(m, s.name) + [s]], syms[1..])
  }

  /** One step of appending: the list of `n` after appending `syms[0]`
      and then the rest. */
  lemma AppendOne(m: NameMap, s: Symbol, n: string, syms: seq<Symbol>)
    requires syms != [] && s == syms[0]
    ensures Get(m[s.name := Get(m, s.name) + [s]], n) + Named(syms[1..], n) == Get(m, n) + Named(syms, n)
  {
    var own := if s.name == n then [s] else [];
    assert Get(m[s.name := Get(m, s.name) + [s]], n) == Get(m, n) + own;
    Assoc(Get(m, n), own, Named(syms[1..], n));
  }

  /** Every name's list gets the new symbols of that name, in order. */
  lemma {:induction false} AddNamesAppends(m: NameMap, syms: seq<Symbol>)
    ensures AddNames(m, syms).Keys == m.Keys + NamesOf(syms)
    ensures forall n :: n in AddNames(m, syms) ==> AddNames(m, syms)[n] == Get(m, n) + Named(syms, n)
    decreases |syms|
  {
    if syms == [] {
      forall n | n in m ensures m[n] == Get(m, n) + Named(syms, n) {
        assert Named(syms, n) == [];
      }
    } else {
      var s := syms[0];
      var m' := m[s.name := Get(m, s.name) + [s]];
      AddNamesAppends(m', syms[1..]);
      NamesOfCons(syms);
      var r := AddNames(m', syms[1..]);
      assert r == AddNames(m, syms);
      forall n | n in r ensures r[n] == Get(m, n) + Named(syms, n) {
        AppendOne(m, s, n, syms);
      }
    }
  }

  /** The package-map step of `remove_file`: an old symbol's entry is
      deleted when the entry still belongs to the file. */
  function DropPkg(m: PkgMap, f: string, syms: seq<Symbol>): PkgMap
    decreases |syms|
  {
    if syms == [] then m
    else
      var s := syms[0];
      var d0 := s.packageDir;
      var m' := if d0 in m && s.name in m[d0] && m[d0][s.name].file == f
                then m[d0 := m[d0] - {s.name}] else m;
      DropPkg(m', f, syms[1..])
  }

  lemma KeyedCons(syms: seq<Symbol>)
    requires syms != []
    ensures forall d, n :: Keyed(syms, d, n) <==> (d == syms[0].packageDir && n == syms[0].name) || Keyed(syms[1..], d, n)
  {
    forall d, n ensures Keyed(syms, d, n) <==> (d == syms[0].packageDir && n == syms[0].name) || Keyed(syms[1..], d, n) {
      if Keyed(syms[1..], d, n) {
        var i :| 0 <= i < |syms[1..]| && syms[1..][i].packageDir == d && syms[1..][i].name == n;
        assert syms[i + 1] == syms[1..][i];
      }
      if Keyed(syms, d, n) && !(d == syms[0].packageDir && n == syms[0].name) {
        var i :| 0 <= i < |syms| && syms[i].packageDir == d && syms[i].name == n;
        assert syms[1..][i - 1] == syms[i];
      }
    }
  }

  /** Dropping a file's entries keeps every directory and removes
      exactly the entries the file owns under one of its symbols' keys. */
  lemma {:induction false} DropPkgReads(m: PkgMap, f: string, syms: seq<Symbol>)
    ensures DropPkg(m, f, syms).Keys == m.Keys
    ensures forall d, n :: (PkgGet(DropPkg(m, f, syms), d, n) ==
      if PkgGet(m, d, n).Some? && PkgGet(m, d, n).value.file == f && Keyed(syms, d, n) then None
      else PkgGet(m, d, n))
    decreases |syms|
  {
    if syms != [] {
      var s := syms[0];
      var d0 := s.packageDir;
      var m' := if d0 in m && s.name in m[d0] && m[d0][s.name].file == f
                then m[d0 := m[d0] - {s.name}] else m;
      DropPkgReads(m', f, syms[1..]);
      KeyedCons(syms);
    }
  }

  /** The package directories of a list of symbols. */
  function DirsOf(syms: seq<Symbol>): set<string> {
    set i | 0 <= i < |syms| :: syms[i].packageDir
  }

  lemma DirsOfCons(syms: seq<Symbol>)
    requires syms != []
    ensures DirsOf(syms) == {syms[0].packageDir} + DirsOf(syms[1..])
  {
    assert forall i :: 1 <= i < |syms| ==> syms[i] == syms[1..][i - 1];
  }

  /** `_by_pkg[sym.package_dir][sym.name] = sym` for each new symbol in
      turn: the last symbol stored under a key wins. */
  function AddPkg(m: PkgMap, syms: seq<Symbol>): PkgMap
    decreases |syms|
  {
    if syms == [] then m
    else
      var s := syms[0];
      AddPkg(m[s.packageDir := GetPkg(m, s.packageDir)[s.name := s]], syms[1..])
  }

  /** After storing a list of symbols, a key reads as the last symbol
      stored under it, or as before when none was; the directories are
      the old ones and the new symbols'. */
  lemma {:induction false} AddPkgReads(m: PkgMap, syms: seq<Symbol>)
    ensures AddPkg(m, syms).Keys == m.Keys + DirsOf(syms)
    ensures forall d, n :: (PkgGet(AddPkg(m, syms), d, n) ==
      if Keyed(syms, d, n) then Latest(syms, d, n) else PkgGet(m, d, n))
    decreases |syms|
  {
    if syms != [] {
      var s := syms[0];
      var m' := m[s.packageDir := GetPkg(m, s.packageDir)[s.name := s]];
      AddPkgReads(m', syms[1..]);
      DirsOfCons(syms);
      KeyedCons(syms);
    }
  }

  // ---------------------------------------------------------------------
  // The operations (odin_plugin.py:555-592)
  // ---------------------------------------------------------------------

  /** `clear()`: every map is emptied except the Odin roots. */
  function Clear(idx: OdinIndex): (r: OdinIndex)
    ensures r.byName == map[] && r.byPkg == map[] && r.fileSyms == map[] && r.fileImports == map[]
    ensures r.pkgNames == map[] && r.roots == idx.roots
  {
    Empty.(roots := idx.roots)
  }

  /** `remove_file(filepath)`: the file leaves the symbol and import
      tables, every other file keeps its entries, and the package names
      and roots are untouched. */
  function RemoveFile(idx: OdinIndex, filepath: string): (r: OdinIndex)
    ensures Normalize(filepath) !in r.fileSyms && Normalize(filepath) !in r.fileImports
    ensures forall g :: g != Normalize(filepath) && g in idx.fileSyms ==> g in r.fileSyms && r.fileSyms[g] == idx.fileSyms[g]
    ensures forall g :: g in r.fileSyms ==> g in idx.fileSyms
    ensures forall g :: g != Normalize(filepath) && g in idx.fileImports ==> g in r.fileImports && r.fileImports[g] == idx.fileImports[g]
    ensures forall g :: g in r.fileImports ==> g in idx.fileImports
    ensures r.pkgNames == idx.pkgNames && r.roots == idx.roots
  {
    var f := Normalize(filepath);
    var oldSyms := if f in idx.fileSyms then idx.fileSyms[f] else [];
    idx.(byName := DropNames(idx.byName, f, oldSyms),
         byPkg := DropPkg(idx.byPkg, f, oldSyms),
         fileSyms := idx.fileSyms - {f},
         fileImports := idx.fileImports - {f})
  }

  /** The storing half of `index_file`: the package name (when the file
      has one), the file's symbols and imports, and every symbol under its
      name and its package. */
  function AddFile(idx: OdinIndex, f: string, parsed: ParsedFile): (r: OdinIndex)
    ensures r.fileSyms == idx.fileSyms[f := parsed.symbols] && r.fileImports == idx.fileImports[f := parsed.imports]
    ensures parsed.packageName != [] ==> PkgDir(f) in r.pkgNames && r.pkgNames[PkgDir(f)] == parsed.packageName
    ensures parsed.packageName == [] ==> r.pkgNames == idx.pkgNames
    ensures r.roots == idx.roots
  {
    var pkgDir := PkgDir(f);
    idx.(pkgNames := if parsed.packageName != [] then idx.pkgNames[pkgDir := parsed.packageName] else idx.pkgNames,
         fileSyms := idx.fileSyms[f := parsed.symbols],
         fileImports := idx.fileImports[f := parsed.imports],
         byName := AddNames(idx.byName, parsed.symbols),
         byPkg := AddPkg(idx.byPkg, parsed.symbols))
  }

  /** `index_file(filepath, content)`: parse, forget what the file
      contributed before, store the new result. */
  function IndexFile(idx: OdinIndex, filepath: string, content: Option<string>): (r: OdinIndex)
    ensures Normalize(filepath) in r.fileSyms && r.fileSyms[Normalize(filepath)] == ParseFile(Normalize(filepath), content).symbols
    ensures Normalize(filepath) in r.fileImports && r.fileImports[Normalize(filepath)] == ParseFile(Normalize(filepath), content).imports
    ensures forall g :: g != Normalize(filepath) && g in idx.fileSyms ==> g in r.fileSyms && r.fileSyms[g] == idx.fileSyms[g]
    ensures forall g :: g in r.fileSyms ==> g == Normalize(filepath) || g in idx.fileSyms
    ensures ParseFile(Normalize(filepath), content).packageName != [] ==>
      PkgDir(Normalize(filepath)) in r.pkgNames && r.pkgNames[PkgDir(Normalize(filepath))] == ParseFile(Normalize(filepath), content).packageName
    ensures r.roots == idx.roots
  {
    NormalizeIdempotent(filepath);
    var f := Normalize(filepath);
    Reindex(idx, f, ParseFile(f, content))
  }

  /** Replacing what the index holds for `f` by a parse of it. */
  function Reindex(idx: OdinIndex, f: string, parsed: ParsedFile): (r: OdinIndex)
    ensures f in r.fileSyms && r.fileSyms[f] == parsed.symbols
    ensures f in r.fileImports && r.fileImports[f] == parsed.imports
    ensures forall g :: g != f && g != Normalize(f) && g in idx.fileSyms ==> g in r.fileSyms && r.fileSyms[g] == idx.fileSyms[g]
    ensures forall g :: g in r.fileSyms ==> g == f || g in idx.fileSyms
    ensures parsed.packageName != [] ==> PkgDir(f) in r.pkgNames && r.pkgNames[PkgDir(f)] == parsed.packageName
    ensures parsed.packageName == [] ==> r.pkgNames == idx.pkgNames
    ensures r.roots == idx.roots
  {
    AddFile(RemoveFile(idx, f), f, parsed)
  }

  // ---------------------------------------------------------------------
  // Well-formedness
  // ---------------------------------------------------------------------

  /** What the file lists say about each symbol: it belongs to the file it
      is listed under. */
  predicate FilesOwn(fs: map<string, seq<Symbol>>) {
    forall f, s :: f in fs && s in fs[f] ==> s.file == f
  }

  /** A symbol that is listed under its own file. */
  predicate Listed(fs: map<string, seq<Symbol>>, s: Symbol) {
    s.file in fs && s in fs[s.file]
  }

  /** Every entry of the name map is listed and filed under its name. */
  predicate NamesListed(m: NameMap, fs: map<string, seq<Symbol>>) {
    forall n, s :: n in m && s in m[n] ==> s.name == n && Listed(fs, s)
  }

  /** Every entry of the package map is listed and filed under its
      directory and name. */
  predicate PkgsListed(m: PkgMap, fs: map<string, seq<Symbol>>) {
    forall d, n :: d in m && n in m[d] ==>
      m[d][n].packageDir == d && m[d][n].name == n && Listed(fs, m[d][n])
  }

  /** The invariant the operations keep: the by-name and by-package views
      only hold symbols of indexed files, and symbol and import lists
      exist for the same files. */
  predicate WF(idx: OdinIndex) {
    && idx.fileSyms.Keys == idx.fileImports.Keys
    && FilesOwn(idx.fileSyms)
    && NamesListed(idx.byName, idx.fileSyms)
    && PkgsListed(idx.byPkg, idx.fileSyms)
  }

  lemma EmptyWF()
    ensures WF(Empty)
  {
  }

  lemma ClearWF(idx: OdinIndex)
    ensures WF(Clear(idx))
  {
  }

  /** The symbols the index holds for a file: `_file_syms.get(f, [])`. */
  function OldSyms(idx: OdinIndex, f: string): seq<Symbol> {
    if f in idx.fileSyms then idx.fileSyms[f] else []
  }

  /** In a well-formed index, a name the file did not use holds none of
      its symbols. */
  lemma ForeignNamesUntouched(idx: OdinIndex, f: string)
    requires WF(idx)
    ensures forall n :: n in idx.byName && n !in NamesOf(OldSyms(idx, f)) ==>
      Without(idx.byName[n], f) == idx.byName[n]
  {
    forall n, s | n in idx.byName && s in idx.byName[n] && s.file == f
      ensures n in NamesOf(OldSyms(idx, f))
    {
      OwnNameListed(idx, f, n, s);
    }
  }

  /** A symbol of `f` listed under `n` makes `n` one of `f`'s names. */
  lemma OwnNameListed(idx: OdinIndex, f: string, n: string, s: Symbol)
    requires WF(idx) && n in idx.byName && s in idx.byName[n] && s.file == f
    ensures n in NamesOf(OldSyms(idx, f))
  {
    var oldSyms := OldSyms(idx, f);
    assert s in oldSyms;
    var k :| 0 <= k < |oldSyms| && oldSyms[k] == s;
  }

  /** In a well-formed index, every package entry of a file is keyed by
      one of its symbols. */
  lemma OwnedEntriesKeyed(idx: OdinIndex, f: string)
    requires WF(idx)
    ensures forall d, n :: PkgGet(idx.byPkg, d, n).Some? && PkgGet(idx.byPkg, d, n).value.file == f ==>
      Keyed(OldSyms(idx, f), d, n)
  {
    var oldSyms := OldSyms(idx, f);
    forall d, n | PkgGet(idx.byPkg, d, n).Some? && PkgGet(idx.byPkg, d, n).value.file == f
      ensures Keyed(oldSyms, d, n)
    {
      var s := PkgGet(idx.byPkg, d, n).value;
      assert s in oldSyms;
      var k :| 0 <= k < |oldSyms| && oldSyms[k] == s;
    }
  }

  /** `remove_file(f)` filters `f` out of every name's list. */
  lemma RemoveFileNames(idx: OdinIndex, filepath: string)
    requires WF(idx)
    ensures forall n :: Get(RemoveFile(idx, filepath).byName, n) == Without(Get(idx.byName, n), Normalize(filepath))
  {
    var f := Normalize(filepath);
    DropNamesFilters(idx.byName, f, OldSyms(idx, f));
    ForeignNamesUntouched(idx, f);
  }

  /** `remove_file(f)` deletes exactly the package entries that belong to
      `f`. */
  lemma RemoveFilePkgs(idx: OdinIndex, filepath: string)
    requires WF(idx)
    ensures forall d, n :: (PkgGet(RemoveFile(idx, filepath).byPkg, d, n) ==
      if PkgGet(idx.byPkg, d, n).Some? && PkgGet(idx.byPkg, d, n).value.file == Normalize(filepath) then None
      else PkgGet(idx.byPkg, d, n))
  {
    OwnedEntriesKeyed(idx, Normalize(filepath));
    DropPkgReads(idx.byPkg, Normalize(filepath), OldSyms(idx, Normalize(filepath)));
  }

  lemma RemoveFileWF(idx: OdinIndex, filepath: string)
    requires WF(idx)
    ensures WF(RemoveFile(idx, filepath))
  {
    RemoveFileNames(idx, filepath);
    RemoveFilePkgs(idx, filepath);
    var f := Normalize(filepath);
    var r := RemoveFile(idx, filepath);
    assert r.fileSyms == idx.fileSyms - {f} && r.fileImports == idx.fileImports - {f};
    FilteredWF(idx, r, f);
  }

  /** An index whose views are those of a well-formed index with one
      file filtered out is well-formed. */
  lemma FilteredWF(idx: OdinIndex, r: OdinIndex, f: string)
    requires WF(idx)
    requires r.fileSyms == idx.fileSyms - {f} && r.fileImports == idx.fileImports - {f}
    requires forall n :: Get(r.byName, n) == Without(Get(idx.byName, n), f)
    requires forall d, n :: (PkgGet(r.byPkg, d, n) ==
      if PkgGet(idx.byPkg, d, n).Some? && PkgGet(idx.byPkg, d, n).value.file == f then None
      else PkgGet(idx.byPkg, d, n))
    ensures WF(r)
  {
    forall n, s | n in r.byName && s in r.byName[n] ensures s.name == n && Listed(r.fileSyms, s) {
      assert s in Get(r.byName, n);
      WithoutMembers(Get(idx.byName, n), f);
      assert s in Get(idx.byName, n);
    }
    forall d, n | d in r.byPkg && n in r.byPkg[d]
      ensures r.byPkg[d][n].packageDir == d && r.byPkg[d][n].name == n && Listed(r.fileSyms, r.byPkg[d][n])
    {
      assert PkgGet(r.byPkg, d, n) == Some(r.byPkg[d][n]);
    }
  }

  /** After `remove_file(f)` nothing of `f` is left: no symbol of it by
      name, no package entry of it, no symbol or import list; everything
      else is as it was. */
  lemma RemoveFileForgets(idx: OdinIndex, filepath: string)
    requires WF(idx)
    ensures WF(RemoveFile(idx, filepath))
    ensures Normalize(filepath) !in RemoveFile(idx, filepath).fileSyms
    ensures Normalize(filepath) !in RemoveFile(idx, filepath).fileImports
    ensures RemoveFile(idx, filepath).fileSyms == idx.fileSyms - {Normalize(filepath)}
    ensures RemoveFile(idx, filepath).fileImports == idx.fileImports - {Normalize(filepath)}
    ensures forall n, s :: n in RemoveFile(idx, filepath).byName && s in RemoveFile(idx, filepath).byName[n] ==>
      s.file != Normalize(filepath)
    ensures forall d, n :: PkgGet(RemoveFile(idx, filepath).byPkg, d, n).Some? ==>
      PkgGet(RemoveFile(idx, filepath).byPkg, d, n).value.file != Normalize(filepath)
    ensures RemoveFile(idx, filepath).pkgNames == idx.pkgNames && RemoveFile(idx, filepath).roots == idx.roots
  {
    RemoveFileWF(idx, filepath);
    RemoveFileNames(idx, filepath);
    RemoveFilePkgs(idx, filepath);
    var r := RemoveFile(idx, filepath);
    forall n, s | n in r.byName && s in r.byName[n] ensures s.file != Normalize(filepath) {
      assert s in Get(r.byName, n);
      WithoutMembers(Get(idx.byName, n), Normalize(filepath));
    }
  }

  // ---------------------------------------------------------------------
  // index_file
  // ---------------------------------------------------------------------

  /** Every symbol of the list belongs to `f`. */
  predicate OwnedBy(syms: seq<Symbol>, f: string) {
    forall i :: 0 <= i < |syms| ==> syms[i].file == f
  }

  lemma WithoutOwned(l: seq<Symbol>, f: string)
    requires OwnedBy(l, f)
    ensures Without(l, f) == []
  {
    if l != [] {
      WithoutOwned(l[1..], f);
    }
  }

  /** What a name contributes from a file's own symbols is itself owned
      by that file. */
  lemma NamedOwned(syms: seq<Symbol>, n: string, f: string)
    requires OwnedBy(syms, f)
    ensures OwnedBy(Named(syms, n), f)
  {
    var r := Named(syms, n);
    forall i | 0 <= i < |r| ensures r[i].file == f {
      var k :| 0 <= k < |syms| && syms[k] == r[i];
    }
  }

  /** The symbols of a parse belong to the parsed file. */
  lemma ParseOwned(f: string, content: Option<string>)
    ensures OwnedBy(ParseFile(f, content).symbols, f)
    ensures forall i :: 0 <= i < |ParseFile(f, content).symbols| ==> ParseFile(f, content).symbols[i].packageDir == PkgDir(f)
  {
    var r := ParseFile(f, content);
    forall i | 0 <= i < |r.symbols| ensures r.symbols[i].file == f && r.symbols[i].packageDir == PkgDir(f) {
      assert Filed(r.symbols[i], f, PkgDir(f), |SplitLines(content.GetOr([]))|);
    }
  }

  /** `_by_name[n]` after appending a list of symbols, for every name. */
  lemma AddNamesGet(m: NameMap, syms: seq<Symbol>)
    ensures forall n :: Get(AddNames(m, syms), n) == Get(m, n) + Named(syms, n)
  {
    AddNamesAppends(m, syms);
  }

  lemma AddFileNamesListed(idx: OdinIndex, f: string, parsed: ParsedFile)
    requires WF(idx) && f !in idx.fileSyms && OwnedBy(parsed.symbols, f)
    ensures NamesListed(AddFile(idx, f, parsed).byName, AddFile(idx, f, parsed).fileSyms)
  {
    AddNamesListed(idx.byName, idx.fileSyms, f, parsed.symbols);
  }

  /** Appending the symbols of a new file `f` to a name map whose entries
      are listed leaves every entry listed once `f` lists its symbols. */
  lemma AddNamesListed(m: NameMap, fs: map<string, seq<Symbol>>, f: string, syms: seq<Symbol>)
    requires NamesListed(m, fs) && f !in fs && OwnedBy(syms, f)
    ensures NamesListed(AddNames(m, syms), fs[f := syms])
  {
    var r := AddNames(m, syms);
    var fs' := fs[f := syms];
    AddNamesGet(m, syms);
    forall n: string, s: Symbol | n in r && s in r[n] ensures s.name == n && Listed(fs', s) {
      assert s in Get(r, n);
      if s in Get(m, n) {
        assert Listed(fs, s);
      } else {
        var named := Named(syms, n);
        assert s in named;
        var i :| 0 <= i < |named| && named[i] == s;
        var k :| 0 <= k < |syms| && syms[k] == s;
      }
    }
  }

  lemma AddFilePkgsListed(idx: OdinIndex, f: string, parsed: ParsedFile)
    requires WF(idx) && f !in idx.fileSyms && OwnedBy(parsed.symbols, f)
    ensures PkgsListed(AddFile(idx, f, parsed).byPkg, AddFile(idx, f, parsed).fileSyms)
  {
    AddPkgListed(idx.byPkg, idx.fileSyms, f, parsed.symbols);
  }

  /** Storing the symbols of a new file `f` in a package map whose entries
      are listed leaves every entry listed once `f` lists its symbols. */
  lemma AddPkgListed(m: PkgMap, fs: map<string, seq<Symbol>>, f: string, syms: seq<Symbol>)
    requires PkgsListed(m, fs) && f !in fs && OwnedBy(syms, f)
    ensures PkgsListed(AddPkg(m, syms), fs[f := syms])
  {
    var r: PkgMap := AddPkg(m, syms);
    var fs' := fs[f := syms];
    AddPkgReads(m, syms);
    forall d: string, n: string | d in r && n in r[d]
      ensures r[d][n].packageDir == d && r[d][n].name == n && Listed(fs', r[d][n])
    {
      assert PkgGet(r, d, n) == Some(r[d][n]);
      if Keyed(syms, d, n) {
        var k :| 0 <= k < |syms| && syms[k] == r[d][n];
      } else {
        assert PkgGet(m, d, n) == Some(r[d][n]);
      }
    }
  }

  /** Storing a parse of a file that is not in the index keeps the index
      well-formed. */
  lemma AddFileWF(idx: OdinIndex, f: string, parsed: ParsedFile)
    requires WF(idx) && f !in idx.fileSyms && OwnedBy(parsed.symbols, f)
    ensures WF(AddFile(idx, f, parsed))
  {
    AddFileNamesListed(idx, f, parsed);
    AddFilePkgsListed(idx, f, parsed);
  }

  /** Two name maps with the same keys that read the same everywhere are
      equal. */
  lemma NameMapExt(a: NameMap, b: NameMap)
    requires a.Keys == b.Keys && forall n :: Get(a, n) == Get(b, n)
    ensures a == b
  {
    forall n | n in a ensures a[n] == b[n] {
      assert Get(a, n) == Get(b, n);
    }
  }

  /** Two package maps with the same directories that read the same
      everywhere are equal. */
  lemma PkgMapExt(a: PkgMap, b: PkgMap)
    requires a.Keys == b.Keys && forall d, n :: PkgGet(a, d, n) == PkgGet(b, d, n)
    ensures a == b
  {
    forall d | d in a ensures a[d] == b[d] {
      forall n | n in a[d] ensures n in b[d] && a[d][n] == b[d][n] {
        assert PkgGet(a, d, n) == PkgGet(b, d, n);
      }
      forall n | n in b[d] ensures n in a[d] {
        assert PkgGet(a, d, n) == PkgGet(b, d, n);
      }
    }
  }

  /** Storing a parse of `f` keeps the index well-formed. */
  lemma ReindexWF(idx: OdinIndex, f: string, parsed: ParsedFile)
    requires WF(idx) && '\\' !in f && OwnedBy(parsed.symbols, f)
    ensures WF(Reindex(idx, f, parsed))
  {
    NormalizeIdempotent(f);
    RemoveFileForgets(idx, f);
    AddFileWF(RemoveFile(idx, f), f, parsed);
  }

  /** Storing a parse of `f` replaces its symbol and import lists and
      keeps every other file's. */
  lemma ReindexFiles(idx: OdinIndex, f: string, parsed: ParsedFile)
    requires '\\' !in f
    ensures Reindex(idx, f, parsed).fileSyms == idx.fileSyms[f := parsed.symbols]
    ensures Reindex(idx, f, parsed).fileImports == idx.fileImports[f := parsed.imports]
  {
    NormalizeIdempotent(f);
    RemoveThenSet(idx.fileSyms, f, parsed.symbols);
    RemoveThenSet(idx.fileImports, f, parsed.imports);
  }

  lemma RemoveThenSet<K, V>(m: map<K, V>, k: K, v: V)
    ensures (m - {k})[k := v] == m[k := v]
  {
  }

  /** The name map after storing a parse of `f`: every name keeps its
      other files' symbols in order and then lists the new ones. */
  lemma ReindexNames(idx: OdinIndex, f: string, parsed: ParsedFile)
    requires WF(idx) && '\\' !in f
    ensures Reindex(idx, f, parsed).byName.Keys == idx.byName.Keys + NamesOf(OldSyms(idx, f)) + NamesOf(parsed.symbols)
    ensures forall n :: Get(Reindex(idx, f, parsed).byName, n) == Without(Get(idx.byName, n), f) + Named(parsed.symbols, n)
  {
    NormalizeIdempotent(f);
    RemoveFileNames(idx, f);
    DropNamesFilters(idx.byName, f, OldSyms(idx, f));
    AddNamesGet(RemoveFile(idx, f).byName, parsed.symbols);
    AddNamesAppends(RemoveFile(idx, f).byName, parsed.symbols);
  }

  /** The package map after storing a parse of `f`: an entry is the last
      new symbol of that directory and name when there is one, is gone
      when it was `f`'s old one, and is unchanged otherwise. */
  lemma ReindexPkgs(idx: OdinIndex, f: string, parsed: ParsedFile)
    requires WF(idx) && '\\' !in f
    ensures Reindex(idx, f, parsed).byPkg.Keys == idx.byPkg.Keys + DirsOf(parsed.symbols)
    ensures forall d, n :: (PkgGet(Reindex(idx, f, parsed).byPkg, d, n) ==
      if Keyed(parsed.symbols, d, n) then Latest(parsed.symbols, d, n)
      else if PkgGet(idx.byPkg, d, n).Some? && PkgGet(idx.byPkg, d, n).value.file == f then None
      else PkgGet(idx.byPkg, d, n))
  {
    NormalizeIdempotent(f);
    RemoveFilePkgs(idx, f);
    DropPkgReads(idx.byPkg, f, OldSyms(idx, f));
    AddPkgReads(RemoveFile(idx, f).byPkg, parsed.symbols);
  }

  /** Storing the same parse twice leaves the index as storing it once. */
  lemma ReindexIdempotent(idx: OdinIndex, f: string, parsed: ParsedFile)
    requires WF(idx) && '\\' !in f && OwnedBy(parsed.symbols, f)
    ensures Reindex(Reindex(idx, f, parsed), f, parsed) == Reindex(idx, f, parsed)
  {
    var r1 := Reindex(idx, f, parsed);
    var r2 := Reindex(r1, f, parsed);
    ReindexSameNames(idx, f, parsed);
    ReindexSamePkgs(idx, f, parsed);
    ReindexSameRest(idx, f, parsed);
    SameIndex(r2, r1);
  }

  lemma ReindexSameRest(idx: OdinIndex, f: string, parsed: ParsedFile)
    requires '\\' !in f
    ensures Reindex(Reindex(idx, f, parsed), f, parsed).fileSyms == Reindex(idx, f, parsed).fileSyms
    ensures Reindex(Reindex(idx, f, parsed), f, parsed).fileImports == Reindex(idx, f, parsed).fileImports
    ensures Reindex(Reindex(idx, f, parsed), f, parsed).pkgNames == Reindex(idx, f, parsed).pkgNames
    ensures Reindex(Reindex(idx, f, parsed), f, parsed).roots == Reindex(idx, f, parsed).roots
  {
    var r1 := Reindex(idx, f, parsed);
    ReindexMeta(idx, f, parsed);
    ReindexMeta(r1, f, parsed);
    ReindexFiles(idx, f, parsed);
    ReindexFiles(r1, f, parsed);
    UpdateTwice(idx.fileSyms, f, parsed.symbols);
    UpdateTwice(idx.fileImports, f, parsed.imports);
    UpdateTwice(idx.pkgNames, PkgDir(f), parsed.packageName);
  }

  lemma UpdateTwice<K, V>(m: map<K, V>, k: K, v: V)
    ensures m[k := v][k := v] == m[k := v]
  {
  }

  lemma ReindexSameNames(idx: OdinIndex, f: string, parsed: ParsedFile)
    requires WF(idx) && '\\' !in f && OwnedBy(parsed.symbols, f)
    ensures Reindex(Reindex(idx, f, parsed), f, parsed).byName == Reindex(idx, f, parsed).byName
  {
    var r1 := Reindex(idx, f, parsed);
    ReindexWF(idx, f, parsed);
    ReindexFiles(idx, f, parsed);
    assert OldSyms(r1, f) == parsed.symbols;
    ReindexNames(idx, f, parsed);
    ReindexNames(r1, f, parsed);
    IdempotentNames(idx.byName, r1.byName, Reindex(r1, f, parsed).byName, f, parsed.symbols);
  }

  lemma ReindexSamePkgs(idx: OdinIndex, f: string, parsed: ParsedFile)
    requires WF(idx) && '\\' !in f && OwnedBy(parsed.symbols, f)
    ensures Reindex(Reindex(idx, f, parsed), f, parsed).byPkg == Reindex(idx, f, parsed).byPkg
  {
    var r1 := Reindex(idx, f, parsed);
    ReindexWF(idx, f, parsed);
    ReindexPkgs(idx, f, parsed);
    ReindexPkgs(r1, f, parsed);
    IdempotentPkgs(idx.byPkg, r1.byPkg, Reindex(r1, f, parsed).byPkg, f, parsed.symbols);
  }

  /** Storing a parse records its package name for the file's directory
      when it has one and leaves the Odin roots alone. */
  lemma ReindexMeta(idx: OdinIndex, f: string, parsed: ParsedFile)
    ensures Reindex(idx, f, parsed).pkgNames
      == if parsed.packageName != [] then idx.pkgNames[PkgDir(f) := parsed.packageName] else idx.pkgNames
    ensures Reindex(idx, f, parsed).roots == idx.roots
  {
  }

  lemma SameIndex(a: OdinIndex, b: OdinIndex)
    requires a.byName == b.byName && a.byPkg == b.byPkg && a.fileSyms == b.fileSyms
    requires a.fileImports == b.fileImports && a.pkgNames == b.pkgNames && a.roots == b.roots
    ensures a == b
  {
  }

  /** After `index_file(f)` the index is well-formed and lists exactly
      the parse for `f`: its symbols and imports, and under each name
      the other files' symbols followed by the new ones. */
  lemma IndexFileRecordsParse(idx: OdinIndex, filepath: string, content: Option<string>)
    requires WF(idx)
    ensures WF(IndexFile(idx, filepath, content))
    ensures IndexFile(idx, filepath, content).fileSyms
      == idx.fileSyms[Normalize(filepath) := ParseFile(Normalize(filepath), content).symbols]
    ensures IndexFile(idx, filepath, content).fileImports
      == idx.fileImports[Normalize(filepath) := ParseFile(Normalize(filepath), content).imports]
    ensures forall n :: (Get(IndexFile(idx, filepath, content).byName, n)
      == Without(Get(idx.byName, n), Normalize(filepath)) + Named(ParseFile(Normalize(filepath), content).symbols, n))
  {
    var f := Normalize(filepath);
    ParseOwned(f, content);
    ReindexWF(idx, f, ParseFile(f, content));
    ReindexNames(idx, f, ParseFile(f, content));
    ReindexFiles(idx, f, ParseFile(f, content));
  }

  /** Indexing the same content twice leaves the index as indexing it
      once. */
  lemma IndexFileIdempotent(idx: OdinIndex, filepath: string, content: Option<string>)
    requires WF(idx)
    ensures IndexFile(IndexFile(idx, filepath, content), filepath, content) == IndexFile(idx, filepath, content)
  {
    var f := Normalize(filepath);
    ParseOwned(f, content);
    NormalizeIdempotent(filepath);
    ReindexIdempotent(idx, f, ParseFile(f, content));
  }

  lemma IdempotentNames(m0: NameMap, m1: NameMap, m2: NameMap, f: string, syms: seq<Symbol>)
    requires OwnedBy(syms, f)
    requires m2.Keys == m1.Keys
    requires forall n :: Get(m1, n) == Without(Get(m0, n), f) + Named(syms, n)
    requires forall n :: Get(m2, n) == Without(Get(m1, n), f) + Named(syms, n)
    ensures m2 == m1
  {
    forall n ensures Get(m2, n) == Get(m1, n) {
      NamedOwned(syms, n, f);
      FilterTwice(Get(m0, n), Named(syms, n), f);
    }
    NameMapExt(m2, m1);
  }

  /** Filtering a file out of "other files' symbols, then the file's
      own" and appending the file's own again gives the same list. */
  lemma FilterTwice(l: seq<Symbol>, own: seq<Symbol>, f: string)
    requires OwnedBy(own, f)
    ensures Without(Without(l, f) + own, f) + own == Without(l, f) + own
  {
    var w := Without(l, f);
    assert Without(w + own, f) == w by {
      WithoutAppend(w, own, f);
      WithoutIdempotent(l, f);
      WithoutOwned(own, f);
      assert w + [] == w;
    }
  }

  lemma IdempotentPkgs(m0: PkgMap, m1: PkgMap, m2: PkgMap, f: string, syms: seq<Symbol>)
    requires m2.Keys == m1.Keys
    requires forall d, n :: (PkgGet(m1, d, n) ==
      if Keyed(syms, d, n) then Latest(syms, d, n)
      else if PkgGet(m0, d, n).Some? && PkgGet(m0, d, n).value.file == f then None
      else PkgGet(m0, d, n))
    requires forall d, n :: (PkgGet(m2, d, n) ==
      if Keyed(syms, d, n) then Latest(syms, d, n)
      else if PkgGet(m1, d, n).Some? && PkgGet(m1, d, n).value.file == f then None
      else PkgGet(m1, d, n))
    ensures m2 == m1
  {
    PkgMapExt(m2, m1);
  }

  // ---------------------------------------------------------------------
  // Getters (odin_plugin.py:670-693)
  // ---------------------------------------------------------------------

  /** `get_file_imports(filepath)`: the file's imports, none for a file
      that is not indexed. */
  function GetFileImports(idx: OdinIndex, filepath: string): (r: seq<Import>)
    ensures Normalize(filepath) !in idx.fileImports ==> r == []
    ensures Normalize(filepath) in idx.fileImports ==> r == idx.fileImports[Normalize(filepath)]
  {
    var f := Normalize(filepath);
    if f in idx.fileImports then idx.fileImports[f] else []
  }

  /** `get_package_symbols(pkg_dir)`: in a well-formed index, the
      symbols of indexed files in that directory, each under its name. */
  function GetPackageSymbols(idx: OdinIndex, pkgDir: string): (r: map<string, Symbol>)
    ensures WF(idx) ==> forall n :: n in r ==>
      r[n].name == n && r[n].packageDir == Normalize(pkgDir) && Listed(idx.fileSyms, r[n])
  {
    GetPkg(idx.byPkg, Normalize(pkgDir))
  }

  /** `get_symbols_by_name(name)`: in a well-formed index, symbols of
      indexed files, all with that name. */
  function GetSymbolsByName(idx: OdinIndex, name: string): (r: seq<Symbol>)
    ensures WF(idx) ==> forall i :: 0 <= i < |r| ==> r[i].name == name && Listed(idx.fileSyms, r[i])
  {
    Get(idx.byName, name)
  }

  /** `get_all_accessible_symbols(filepath)`: only the symbols of the
      file's own package; imported packages are not consulted. */
  function GetAllAccessibleSymbols(idx: OdinIndex, filepath: string): (r: map<string, Symbol>)
    ensures r == GetPackageSymbols(idx, Dirname(Normalize(filepath)))
    ensures WF(idx) ==> forall n :: n in r ==> r[n].name == n && r[n].packageDir == PkgDir(Normalize(filepath))
  {
    DirnameNormal(Normalize(filepath));
    GetPkg(idx.byPkg, Dirname(Normalize(filepath)))
  }

  /** A prefix of a path without backslashes has none either. */
  lemma DirnameNormal(f: string)
    requires '\\' !in f
    ensures '\\' !in Dirname(f)
    ensures PkgDir(f) == Dirname(f)
  {
    var d := Dirname(f);
    assert d == f[..|d|];
    assert forall i :: 0 <= i < |d| ==> d[i] == f[i];
    NormalizeIdempotent(d);
  }

  /** After `index_file(f)`, every name the file declares is accessible
      from `f` (and from any file of its package) and reads as the last
      symbol of that name in the file. */
  lemma IndexedNamesAccessible(idx: OdinIndex, filepath: string, content: Option<string>)
    requires WF(idx)
    ensures forall i :: 0 <= i < |ParseFile(Normalize(filepath), content).symbols| ==>
      var n := ParseFile(Normalize(filepath), content).symbols[i].name;
      && n in GetAllAccessibleSymbols(IndexFile(idx, filepath, content), filepath)
      && GetAllAccessibleSymbols(IndexFile(idx, filepath, content), filepath)[n]
         == Latest(ParseFile(Normalize(filepath), content).symbols, PkgDir(Normalize(filepath)), n).value
  {
    var f := Normalize(filepath);
    NormalizeIdempotent(filepath);
    ParseOwned(f, content);
    DirnameNormal(f);
    ReindexedNamesHeld(idx, f, ParseFile(f, content), PkgDir(f));
  }

  /** Re-indexing with symbols all filed under `dir` leaves each of their
      names in that package, mapped to the last symbol of the name. */
  lemma ReindexedNamesHeld(idx: OdinIndex, f: string, parsed: ParsedFile, dir: string)
    requires WF(idx) && '\\' !in f
    requires forall i :: 0 <= i < |parsed.symbols| ==> parsed.symbols[i].packageDir == dir
    ensures forall i :: 0 <= i < |parsed.symbols| ==>
      && parsed.symbols[i].name in GetPkg(Reindex(idx, f, parsed).byPkg, dir)
      && GetPkg(Reindex(idx, f, parsed).byPkg, dir)[parsed.symbols[i].name]
         == Latest(parsed.symbols, dir, parsed.symbols[i].name).value
  {
    var syms := parsed.symbols;
    ReindexPkgs(idx, f, parsed);
    forall i | 0 <= i < |syms|
      ensures syms[i].name in GetPkg(Reindex(idx, f, parsed).byPkg, dir)
      && GetPkg(Reindex(idx, f, parsed).byPkg, dir)[syms[i].name] == Latest(syms, dir, syms[i].name).value
    {
      assert Keyed(syms, dir, syms[i].name);
    }
  }
}
