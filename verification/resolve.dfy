/** Name resolution over the index (odin_plugin.py:634-753): where an
    import points, which symbol a type name denotes from a given file,
    the fields a struct has once `using` embeddings are followed, and the
    enum behind a type name. The filesystem is abstracted: resolving an
    import is a `Resolver` argument in the lookups, and `ResolveImportDir`
    probes a given set of existing directories. */
module Resolve {
  import opened Wrappers
  import opened Text
  import opened Symbols
  import opened Paths
  import opened Index

  /** `resolve_import_dir(filepath, imp)` as the lookups see it: the
      directory an import of a file names, if it can be found. */
  type Resolver = (string, Import) -> Option<string>

  /** Python's truth test on the resolver's answer: `None` and `''` are
      both false. */
  predicate Truthy(d: Option<string>) {
    d.Some? && d.value != []
  }

  // ---------------------------------------------------------------------
  // lookup_type (odin_plugin.py:695-729)
  // ---------------------------------------------------------------------

  /** `type_name.lstrip('^').strip()` */
  function CleanTypeName(t: string): (r: string)
    ensures |r| <= |t|
  {
    Strip(LStripAny(t, {'^'}))
  }

  /** The import `imp` of `f` resolves to a package that declares `name`. */
  predicate Provides(idx: OdinIndex, resolve: Resolver, f: string, imp: Import, name: string) {
    Truthy(resolve(f, imp)) && name in GetPackageSymbols(idx, resolve(f, imp).value)
  }

  /** The import `imp` of `f` carries the alias and resolves. */
  predicate Serves(resolve: Resolver, f: string, imp: Import, alias: string) {
    imp.alias == alias && Truthy(resolve(f, imp))
  }

  /** The loop over the imports for an unqualified name: the first import
      whose package declares the name supplies it. */
  function LookupImported(idx: OdinIndex, resolve: Resolver, f: string, imps: seq<Import>, name: string)
    : (r: Option<Symbol>)
    ensures r.None? <==> forall i :: 0 <= i < |imps| ==> !Provides(idx, resolve, f, imps[i], name)
    ensures forall i :: (0 <= i < |imps| && Provides(idx, resolve, f, imps[i], name)
      && (forall j :: 0 <= j < i ==> !Provides(idx, resolve, f, imps[j], name))) ==>
      r == Some(GetPackageSymbols(idx, resolve(f, imps[i]).value)[name])
  {
    if imps == [] then None
    else if Provides(idx, resolve, f, imps[0], name) then
      Some(GetPackageSymbols(idx, resolve(f, imps[0]).value)[name])
    else
      var r := LookupImported(idx, resolve, f, imps[1..], name);
      assert forall i :: 1 <= i < |imps| ==> imps[i] == imps[1..][i - 1];
      r
  }

  /** The loop over the imports for `alias.name`: the first import with
      that alias that resolves decides the answer, found or not. */
  function LookupQualified(idx: OdinIndex, resolve: Resolver, f: string, imps: seq<Import>,
                           alias: string, name: string): (r: Option<Symbol>)
    ensures (forall i :: 0 <= i < |imps| ==> !Serves(resolve, f, imps[i], alias)) ==> r.None?
    ensures forall i :: (0 <= i < |imps| && Serves(resolve, f, imps[i], alias)
      && (forall j :: 0 <= j < i ==> !Serves(resolve, f, imps[j], alias))) ==>
      r == (var pkg := GetPackageSymbols(idx, resolve(f, imps[i]).value);
            if name in pkg then Some(pkg[name]) else None)
  {
    if imps == [] then None
    else if Serves(resolve, f, imps[0], alias) then
      var pkg := GetPackageSymbols(idx, resolve(f, imps[0]).value);
      if name in pkg then Some(pkg[name]) else None
    else
      var r := LookupQualified(idx, resolve, f, imps[1..], alias, name);
      assert forall i :: 1 <= i < |imps| ==> imps[i] == imps[1..][i - 1];
      r
  }

  /** `lookup_type(type_name, from_file)`: an empty name finds nothing;
      an unqualified name that the file's own package declares resolves
      there, whatever the imports say; whatever is found is held by the
      index's package map. */
  function LookupType(idx: OdinIndex, resolve: Resolver, typeName: string, fromFile: string): (r: Option<Symbol>)
    ensures CleanTypeName(typeName) == [] ==> r.None?
    ensures (CleanTypeName(typeName) != [] && '.' !in CleanTypeName(typeName)
      && CleanTypeName(typeName) in GetPackageSymbols(idx, Dirname(Normalize(fromFile)))) ==>
      r == Some(GetPackageSymbols(idx, Dirname(Normalize(fromFile)))[CleanTypeName(typeName)])
    ensures r.Some? ==> r.value in Universe(idx)
  {
    LookupClean(idx, resolve, CleanTypeName(typeName), Normalize(fromFile))
  }

  /** The lookup once the name is cleaned and the file normalised. */
  function LookupClean(idx: OdinIndex, resolve: Resolver, clean: string, f: string): (r: Option<Symbol>)
    ensures clean == [] ==> r.None?
    ensures (clean != [] && '.' !in clean && clean in GetPackageSymbols(idx, Dirname(f))) ==>
      r == Some(GetPackageSymbols(idx, Dirname(f))[clean])
    ensures r.Some? ==> r.value in Universe(idx)
  {
    if clean == [] then None
    else
      var dot := FindChar(clean, '.');
      var imps := GetFileImports(idx, f);
      if dot >= 0 then
        QualifiedHeld(idx, resolve, f, imps, clean[..dot], clean[dot + 1..]);
        LookupQualified(idx, resolve, f, imps, clean[..dot], clean[dot + 1..])
      else
        var own := GetPackageSymbols(idx, Dirname(f));
        if clean in own then
          PackageInUniverse(idx, Dirname(f), clean);
          Some(own[clean])
        else
          ImportedHeld(idx, resolve, f, imps, clean);
          LookupImported(idx, resolve, f, imps, clean)
  }

  /** Every symbol the package map holds. */
  function Universe(idx: OdinIndex): set<Symbol> {
    set d, n | d in idx.byPkg && n in idx.byPkg[d] :: idx.byPkg[d][n]
  }

  /** What a package read returns is held by the index. */
  lemma PackageInUniverse(idx: OdinIndex, dir: string, n: string)
    requires n in GetPackageSymbols(idx, dir)
    ensures GetPackageSymbols(idx, dir)[n] in Universe(idx)
  {
    var d := Normalize(dir);
    assert idx.byPkg[d][n] in Universe(idx);
  }

  /** In a well-formed index an unqualified name finds a symbol of that
      name. */
  lemma LookupTypeName(idx: OdinIndex, resolve: Resolver, typeName: string, fromFile: string)
    requires WF(idx)
    ensures ('.' !in CleanTypeName(typeName) && LookupType(idx, resolve, typeName, fromFile).Some?) ==>
      LookupType(idx, resolve, typeName, fromFile).value.name == CleanTypeName(typeName)
  {
    LookupCleanName(idx, resolve, CleanTypeName(typeName), Normalize(fromFile));
  }

  lemma LookupCleanName(idx: OdinIndex, resolve: Resolver, clean: string, f: string)
    requires WF(idx)
    ensures ('.' !in clean && LookupClean(idx, resolve, clean, f).Some?) ==>
      LookupClean(idx, resolve, clean, f).value.name == clean
  {
    ImportedName(idx, resolve, f, GetFileImports(idx, f), clean);
  }

  /** In a well-formed index a name found through the imports is a
      symbol of that name. */
  lemma ImportedName(idx: OdinIndex, resolve: Resolver, f: string, imps: seq<Import>, name: string)
    requires WF(idx)
    ensures LookupImported(idx, resolve, f, imps, name).Some? ==>
      LookupImported(idx, resolve, f, imps, name).value.name == name
  {
    if LookupImported(idx, resolve, f, imps, name).Some? {
      var i :| 0 <= i < |imps| && Provides(idx, resolve, f, imps[i], name);
      var k := FirstProviding(idx, resolve, f, imps, name, i);
    }
  }

  lemma QualifiedHeld(idx: OdinIndex, resolve: Resolver, f: string, imps: seq<Import>, alias: string, name: string)
    ensures LookupQualified(idx, resolve, f, imps, alias, name).Some? ==>
      LookupQualified(idx, resolve, f, imps, alias, name).value in Universe(idx)
  {
    if LookupQualified(idx, resolve, f, imps, alias, name).Some? {
      var i :| 0 <= i < |imps| && Serves(resolve, f, imps[i], alias);
      var k := FirstServing(resolve, f, imps, alias, i);
      PackageInUniverse(idx, resolve(f, imps[k]).value, name);
    }
  }

  lemma ImportedHeld(idx: OdinIndex, resolve: Resolver, f: string, imps: seq<Import>, name: string)
    ensures LookupImported(idx, resolve, f, imps, name).Some? ==>
      LookupImported(idx, resolve, f, imps, name).value in Universe(idx)
  {
    if LookupImported(idx, resolve, f, imps, name).Some? {
      var i :| 0 <= i < |imps| && Provides(idx, resolve, f, imps[i], name);
      var k := FirstProviding(idx, resolve, f, imps, name, i);
      PackageInUniverse(idx, resolve(f, imps[k]).value, name);
    }
  }

  /** The first import that serves an alias, given that one does. */
  lemma FirstServing(resolve: Resolver, f: string, imps: seq<Import>, alias: string, i: nat) returns (k: nat)
    requires i < |imps| && Serves(resolve, f, imps[i], alias)
    ensures k <= i && Serves(resolve, f, imps[k], alias)
    ensures forall j :: 0 <= j < k ==> !Serves(resolve, f, imps[j], alias)
  {
    k := 0;
    while !Serves(resolve, f, imps[k], alias)
      invariant k <= i
      invariant forall j :: 0 <= j < k ==> !Serves(resolve, f, imps[j], alias)
      decreases i - k
    {
      k := k + 1;
    }
  }

  /** The first import that provides a name, given that one does. */
  lemma FirstProviding(idx: OdinIndex, resolve: Resolver, f: string, imps: seq<Import>, name: string, i: nat)
    returns (k: nat)
    requires i < |imps| && Provides(idx, resolve, f, imps[i], name)
    ensures k <= i && Provides(idx, resolve, f, imps[k], name)
    ensures forall j :: 0 <= j < k ==> !Provides(idx, resolve, f, imps[j], name)
  {
    k := 0;
    while !Provides(idx, resolve, f, imps[k], name)
      invariant k <= i
      invariant forall j :: 0 <= j < k ==> !Provides(idx, resolve, f, imps[j], name)
      decreases i - k
    {
      k := k + 1;
    }
  }

  // ---------------------------------------------------------------------
  // resolve_fields (odin_plugin.py:731-740)
  // ---------------------------------------------------------------------

  /** `lookup_type(type_name, from_file)` as `resolve_fields` calls it. */
  type Lookup = (string, string) -> Option<Symbol>

  /** The lookup of an index with a given import resolution. */
  function LookupIn(idx: OdinIndex, resolve: Resolver): Lookup {
    (t: string, f: string) => LookupType(idx, resolve, t, f)
  }

  /** Every symbol the lookup can return lies in `universe`. */
  ghost predicate Closed(lookup: Lookup, universe: set<Symbol>) {
    forall t, f :: lookup(t, f).Some? ==> lookup(t, f).value in universe
  }

  lemma LookupInClosed(idx: OdinIndex, resolve: Resolver)
    ensures Closed(LookupIn(idx, resolve), Universe(idx))
  {
    forall t, f | LookupIn(idx, resolve)(t, f).Some?
      ensures LookupIn(idx, resolve)(t, f).value in Universe(idx)
    {
    }
  }

  /** The parent a `using` type of `s` names, when it is a struct. */
  function StructParent(lookup: Lookup, s: Symbol, usingType: string): Option<Symbol> {
    var p := lookup(usingType, s.file);
    if p.Some? && p.value.kind == Struct then p else None
  }

  /** `resolve_fields(sym)` as written: the struct's own fields, then each
      struct named by a `using` resolved in turn and merged with
      `dict.update`, so a parent's field replaces the child's field of the
      same name. There is no record of the structs already on the way, so
      `fuel` bounds the nesting: `None` is the point where Python gives up
      with a RecursionError. */
  function ResolveFieldsAsWritten(lookup: Lookup, sym: Option<Symbol>, fuel: nat)
    : (r: Option<map<string, string>>)
    ensures sym.None? || sym.value.kind != Struct ==> r == Some(map[])
    ensures sym.Some? && sym.value.kind == Struct && r.Some? ==> r.value.Keys >= sym.value.fields.Keys
    decreases fuel, 1, 0
  {
    if sym.None? || sym.value.kind != Struct then Some(map[])
    else MergeAsWritten(lookup, sym.value, sym.value.usingTypes, sym.value.fields, fuel)
  }

  /** The loop over `using_types` of `s`, with the fields gathered so far. */
  function MergeAsWritten(lookup: Lookup, s: Symbol, usings: seq<string>,
                          fields: map<string, string>, fuel: nat): (r: Option<map<string, string>>)
    ensures r.Some? ==> r.value.Keys >= fields.Keys
    decreases fuel, 0, |usings|
  {
    if usings == [] then Some(fields)
    else
      var parent := StructParent(lookup, s, usings[0]);
      if parent.None? then MergeAsWritten(lookup, s, usings[1..], fields, fuel)
      else if fuel == 0 then None
      else
        match ResolveFieldsAsWritten(lookup, parent, fuel - 1)
        case None => None
        case Some(pf) => MergeAsWritten(lookup, s, usings[1..], fields + pf, fuel)
  }

  /** Two structs that embed each other: each has a single `using` type,
      and it names the other. */
  predicate UsingCycle(lookup: Lookup, a: Symbol, b: Symbol) {
    && a.kind == Struct && b.kind == Struct
    && |a.usingTypes| == 1 && |b.usingTypes| == 1
    && StructParent(lookup, a, a.usingTypes[0]) == Some(b)
    && StructParent(lookup, b, b.usingTypes[0]) == Some(a)
  }

  /** As written, two structs that embed each other never resolve: every
      bound on the nesting is exhausted. */
  lemma {:induction false} CycleExhaustsFuel(lookup: Lookup, a: Symbol, b: Symbol, fuel: nat)
    requires UsingCycle(lookup, a, b)
    ensures ResolveFieldsAsWritten(lookup, Some(a), fuel).None?
    decreases fuel
  {
    assert a.usingTypes == [a.usingTypes[0]];
    if fuel > 0 {
      CycleExhaustsFuel(lookup, b, a, fuel - 1);
    }
  }

  /** As written, a parent's field replaces the child's own field of the
      same name. */
  lemma ParentFieldWins(lookup: Lookup, child: Symbol, parent: Symbol, k: string, fuel: nat)
    requires child.kind == Struct && |child.usingTypes| == 1
    requires StructParent(lookup, child, child.usingTypes[0]) == Some(parent)
    requires parent.usingTypes == [] && k in parent.fields && fuel >= 1
    ensures ResolveFieldsAsWritten(lookup, Some(child), fuel) == Some(child.fields + parent.fields)
    ensures ResolveFieldsAsWritten(lookup, Some(child), fuel).value[k] == parent.fields[k]
  {
    var t := child.usingTypes[0];
    assert child.usingTypes == [t];
    assert ResolveFieldsAsWritten(lookup, Some(parent), fuel - 1) == Some(parent.fields) by {
      assert parent.kind == Struct;
      assert ResolveFieldsAsWritten(lookup, Some(parent), fuel - 1)
          == MergeAsWritten(lookup, parent, [], parent.fields, fuel - 1);
    }
    assert MergeAsWritten(lookup, child, [t], child.fields, fuel)
        == MergeAsWritten(lookup, child, [], child.fields + parent.fields, fuel);
  }

  /** `resolve_fields` with a record of the structs already being
      resolved: a `using` that leads back to one of them is skipped, so the
      resolution always ends. Otherwise it merges as the source does. */
  function ResolveFields(lookup: Lookup, universe: set<Symbol>, sym: Option<Symbol>): (r: map<string, string>)
    requires Closed(lookup, universe)
    ensures sym.None? || sym.value.kind != Struct ==> r == map[]
    ensures sym.Some? && sym.value.kind == Struct ==> r.Keys >= sym.value.fields.Keys
  {
    if sym.None? || sym.value.kind != Struct then map[]
    else ResolveVisited(lookup, universe, sym.value, {sym.value})
  }

  /** The fields of struct `s`, with `visited` the structs on the way to
      it (itself included). */
  function ResolveVisited(lookup: Lookup, universe: set<Symbol>, s: Symbol, visited: set<Symbol>)
    : (r: map<string, string>)
    requires Closed(lookup, universe)
    ensures r.Keys >= s.fields.Keys
    decreases |universe - visited|, 1, 0
  {
    MergeVisited(lookup, universe, s, s.usingTypes, s.fields, visited)
  }

  function MergeVisited(lookup: Lookup, universe: set<Symbol>, s: Symbol, usings: seq<string>,
                        fields: map<string, string>, visited: set<Symbol>): (r: map<string, string>)
    requires Closed(lookup, universe)
    ensures r.Keys >= fields.Keys
    decreases |universe - visited|, 0, |usings|
  {
    if usings == [] then fields
    else
      var parent := StructParent(lookup, s, usings[0]);
      if parent.None? || parent.value in visited then
        MergeVisited(lookup, universe, s, usings[1..], fields, visited)
      else
        var p := parent.value;
        assert |universe - (visited + {p})| < |universe - visited| by {
          assert universe - (visited + {p}) == (universe - visited) - {p};
        }
        var pf := ResolveVisited(lookup, universe, p, visited + {p});
        MergeVisited(lookup, universe, s, usings[1..], fields + pf, visited)
  }

  /** With the record of visited structs, two structs that embed each
      other resolve: `a` gets its own fields and then `b`'s. */
  lemma CycleResolves(lookup: Lookup, universe: set<Symbol>, a: Symbol, b: Symbol)
    requires Closed(lookup, universe)
    requires UsingCycle(lookup, a, b) && a != b
    ensures ResolveFields(lookup, universe, Some(a)) == a.fields + b.fields
  {
    var visited := {a} + {b};
    var ta, tb := a.usingTypes[0], b.usingTypes[0];
    assert b.usingTypes == [tb];
    assert a in visited;
    assert ResolveVisited(lookup, universe, b, visited) == b.fields by {
      assert MergeVisited(lookup, universe, b, [tb], b.fields, visited)
          == MergeVisited(lookup, universe, b, [], b.fields, visited);
    }
    assert a.usingTypes == [ta];
    assert b !in {a};
    assert MergeVisited(lookup, universe, a, [ta], a.fields, {a})
        == MergeVisited(lookup, universe, a, [], a.fields + b.fields, {a});
  }

  /** `resolve_fields(sym)` over an index, with the record of visited
      structs: defined for every symbol, and a struct's result includes
      its own fields. */
  function IndexResolveFields(idx: OdinIndex, resolve: Resolver, sym: Option<Symbol>): (r: map<string, string>)
    ensures sym.None? || sym.value.kind != Struct ==> r == map[]
    ensures sym.Some? && sym.value.kind == Struct ==> r.Keys >= sym.value.fields.Keys
  {
    LookupInClosed(idx, resolve);
    ResolveFields(LookupIn(idx, resolve), Universe(idx), sym)
  }

  /** As written, more nesting allowance never changes a result that
      was reached: a resolution that ends with `fuel` ends the same way
      with any larger bound. */
  lemma {:induction false} AsWrittenMonotone(lookup: Lookup, sym: Option<Symbol>, fuel: nat, more: nat)
    requires fuel <= more
    ensures ResolveFieldsAsWritten(lookup, sym, fuel).Some? ==>
      ResolveFieldsAsWritten(lookup, sym, more) == ResolveFieldsAsWritten(lookup, sym, fuel)
    decreases fuel, 1, 0
  {
    if sym.Some? && sym.value.kind == Struct {
      MergeMonotone(lookup, sym.value, sym.value.usingTypes, sym.value.fields, fuel, more);
    }
  }

  lemma {:induction false} MergeMonotone(lookup: Lookup, s: Symbol, usings: seq<string>,
                                         fields: map<string, string>, fuel: nat, more: nat)
    requires fuel <= more
    ensures MergeAsWritten(lookup, s, usings, fields, fuel).Some? ==>
      MergeAsWritten(lookup, s, usings, fields, more) == MergeAsWritten(lookup, s, usings, fields, fuel)
    decreases fuel, 0, |usings|
  {
    if usings != [] {
      var parent := StructParent(lookup, s, usings[0]);
      if parent.None? {
        MergeMonotone(lookup, s, usings[1..], fields, fuel, more);
      } else if fuel > 0 {
        AsWrittenMonotone(lookup, parent, fuel - 1, more - 1);
        var pf := ResolveFieldsAsWritten(lookup, parent, fuel - 1);
        if pf.Some? {
          MergeMonotone(lookup, s, usings[1..], fields + pf.value, fuel, more);
        }
      }
    }
  }

  /** The least nesting allowance with which a resolution that ends
      does end. */
  lemma {:induction false} LeastFuel(lookup: Lookup, sym: Option<Symbol>, fuel: nat) returns (k: nat)
    requires ResolveFieldsAsWritten(lookup, sym, fuel).Some?
    ensures k <= fuel && ResolveFieldsAsWritten(lookup, sym, k) == ResolveFieldsAsWritten(lookup, sym, fuel)
    ensures k > 0 ==> ResolveFieldsAsWritten(lookup, sym, k - 1).None?
    decreases fuel
  {
    if fuel == 0 || ResolveFieldsAsWritten(lookup, sym, fuel - 1).None? {
      k := fuel;
    } else {
      AsWrittenMonotone(lookup, sym, fuel - 1, fuel);
      k := LeastFuel(lookup, sym, fuel - 1);
    }
  }

  /** No struct on the way resolves with less than `fuel - 1`. */
  ghost predicate AboveFuel(lookup: Lookup, visited: set<Symbol>, fuel: nat) {
    forall v :: v in visited ==> (fuel > 0 ==> ResolveFieldsAsWritten(lookup, Some(v), fuel - 1).None?)
  }

  /** Where the as-written resolution of `s` ends with the least
      allowance, the record of visited structs never skips a `using`: the
      parent of a struct on the way resolves with less allowance than
      the struct itself, so it is never one of the structs on the way. */
  lemma {:induction false} VisitedAgrees(lookup: Lookup, universe: set<Symbol>, s: Symbol,
                                         visited: set<Symbol>, fuel: nat)
    requires Closed(lookup, universe)
    requires s.kind == Struct && AboveFuel(lookup, visited, fuel)
    requires ResolveFieldsAsWritten(lookup, Some(s), fuel).Some?
    ensures ResolveVisited(lookup, universe, s, visited) == ResolveFieldsAsWritten(lookup, Some(s), fuel).value
    decreases fuel, 1, 0
  {
    MergeAgrees(lookup, universe, s, s.usingTypes, s.fields, visited, fuel);
  }

  lemma {:induction false} MergeAgrees(lookup: Lookup, universe: set<Symbol>, s: Symbol, usings: seq<string>,
                                       fields: map<string, string>, visited: set<Symbol>, fuel: nat)
    requires Closed(lookup, universe)
    requires AboveFuel(lookup, visited, fuel)
    requires MergeAsWritten(lookup, s, usings, fields, fuel).Some?
    ensures MergeVisited(lookup, universe, s, usings, fields, visited) == MergeAsWritten(lookup, s, usings, fields, fuel).value
    decreases fuel, 0, |usings|
  {
    if usings != [] {
      var parent := StructParent(lookup, s, usings[0]);
      if parent.None? {
        MergeAgrees(lookup, universe, s, usings[1..], fields, visited, fuel);
      } else {
        var p := parent.value;
        var pf := ResolveFieldsAsWritten(lookup, parent, fuel - 1).value;
        assert p !in visited;
        var k := LeastFuel(lookup, parent, fuel - 1);
        forall v | v in visited + {p} && k > 0 ensures ResolveFieldsAsWritten(lookup, Some(v), k - 1).None? {
          AsWrittenMonotone(lookup, Some(v), k - 1, fuel - 1);
        }
        VisitedAgrees(lookup, universe, p, visited + {p}, k);
        MergeAgrees(lookup, universe, s, usings[1..], fields + pf, visited, fuel);
      }
    }
  }

  /** Wherever the as-written `resolve_fields` ends, the resolution with
      the record of visited structs gives the same fields: the record only
      changes the answer where the source recurses without end. */
  lemma AsWrittenAgrees(lookup: Lookup, universe: set<Symbol>, sym: Option<Symbol>, fuel: nat)
    requires Closed(lookup, universe)
    ensures ResolveFieldsAsWritten(lookup, sym, fuel).Some? ==>
      ResolveFields(lookup, universe, sym) == ResolveFieldsAsWritten(lookup, sym, fuel).value
  {
    if sym.Some? && sym.value.kind == Struct && ResolveFieldsAsWritten(lookup, sym, fuel).Some? {
      var k := LeastFuel(lookup, sym, fuel);
      VisitedAgrees(lookup, universe, sym.value, {sym.value}, k);
    }
  }

  /** Over an index, `IndexResolveFields` agrees with the source's
      `resolve_fields` wherever the latter ends. */
  lemma IndexResolveAgrees(idx: OdinIndex, resolve: Resolver, sym: Option<Symbol>, fuel: nat)
    ensures ResolveFieldsAsWritten(LookupIn(idx, resolve), sym, fuel).Some? ==>
      IndexResolveFields(idx, resolve, sym) == ResolveFieldsAsWritten(LookupIn(idx, resolve), sym, fuel).value
  {
    LookupInClosed(idx, resolve);
    AsWrittenAgrees(LookupIn(idx, resolve), Universe(idx), sym, fuel);
  }

  /** Every struct a `using` of `s` names, other than `s` itself,
      contributes all its own field names to the fields of `s`. */
  lemma ParentFieldsIncluded(lookup: Lookup, universe: set<Symbol>, s: Symbol, i: nat, p: Symbol)
    requires Closed(lookup, universe)
    requires s.kind == Struct && i < |s.usingTypes| && p != s
    requires StructParent(lookup, s, s.usingTypes[i]) == Some(p)
    ensures ResolveFields(lookup, universe, Some(s)).Keys >= p.fields.Keys
  {
    MergeIncludes(lookup, universe, s, s.usingTypes, s.fields, {s}, i, p);
  }

  lemma {:induction false} MergeIncludes(lookup: Lookup, universe: set<Symbol>, s: Symbol, usings: seq<string>,
                                         fields: map<string, string>, visited: set<Symbol>, i: nat, p: Symbol)
    requires Closed(lookup, universe)
    requires i < |usings| && StructParent(lookup, s, usings[i]) == Some(p) && p !in visited
    ensures MergeVisited(lookup, universe, s, usings, fields, visited).Keys >= p.fields.Keys
    decreases i
  {
    var parent := StructParent(lookup, s, usings[0]);
    var next := if parent.None? || parent.value in visited then fields
      else fields + ResolveVisited(lookup, universe, parent.value, visited + {parent.value});
    assert MergeVisited(lookup, universe, s, usings, fields, visited)
        == MergeVisited(lookup, universe, s, usings[1..], next, visited);
    if i > 0 {
      MergeIncludes(lookup, universe, s, usings[1..], next, visited, i - 1, p);
    }
  }

  // ---------------------------------------------------------------------
  // resolve_enum_for_type (odin_plugin.py:742-753)
  // ---------------------------------------------------------------------

  /** `resolve_enum_for_type(type_name, from_file)`: the named enum, or
      for a type with an underlying enum (a `bit_set[E]`), the lookup of
      that enum's name, taken without checking its kind. */
  function ResolveEnumForType(lookup: Lookup, typeName: string, fromFile: string): (r: Option<Symbol>)
    ensures lookup(typeName, fromFile).None? ==> r.None?
    ensures lookup(typeName, fromFile).Some? && lookup(typeName, fromFile).value.kind == Enum ==>
      r == lookup(typeName, fromFile)
    ensures r.Some? && r != lookup(typeName, fromFile) ==>
      && lookup(typeName, fromFile).Some?
      && lookup(typeName, fromFile).value.kind == TypeKind
      && lookup(typeName, fromFile).value.underlyingEnum != []
      && r == lookup(lookup(typeName, fromFile).value.underlyingEnum, fromFile)
    ensures lookup(typeName, fromFile).Some? && lookup(typeName, fromFile).value.kind !in {Enum, TypeKind} ==> r.None?
  {
    var sym := lookup(typeName, fromFile);
    if sym.None? then None
    else if sym.value.kind == Enum then sym
    else if sym.value.kind == TypeKind && sym.value.underlyingEnum != [] then
      lookup(sym.value.underlyingEnum, fromFile)
    else None
  }

  /** The result is the named symbol itself when that is an enum, and
      otherwise what one redirect through its underlying enum finds; the
      redirect is followed once, never again. Symbols of any other kind
      give nothing, and whatever is found is a symbol the lookup can
      return. */
  lemma EnumOneRedirect(lookup: Lookup, universe: set<Symbol>, typeName: string, fromFile: string)
    requires Closed(lookup, universe)
    ensures ResolveEnumForType(lookup, typeName, fromFile).Some? ==>
      (ResolveEnumForType(lookup, typeName, fromFile) == lookup(typeName, fromFile)
       && lookup(typeName, fromFile).value.kind == Enum)
      || (lookup(typeName, fromFile).Some?
          && lookup(typeName, fromFile).value.kind == TypeKind
          && ResolveEnumForType(lookup, typeName, fromFile)
             == lookup(lookup(typeName, fromFile).value.underlyingEnum, fromFile))
    ensures (lookup(typeName, fromFile).Some? && lookup(typeName, fromFile).value.kind !in {Enum, TypeKind}) ==>
      ResolveEnumForType(lookup, typeName, fromFile).None?
    ensures ResolveEnumForType(lookup, typeName, fromFile).Some? ==>
      ResolveEnumForType(lookup, typeName, fromFile).value in universe
  {
  }

  /** A `bit_set` of a type that is itself a `bit_set` stops at that
      inner type: the second redirect is not taken. */
  lemma EnumRedirectStops(lookup: Lookup, typeName: string, fromFile: string, inner: Symbol)
    requires lookup(typeName, fromFile).Some? && lookup(typeName, fromFile).value.kind == TypeKind
    requires lookup(typeName, fromFile).value.underlyingEnum != []
    requires lookup(lookup(typeName, fromFile).value.underlyingEnum, fromFile) == Some(inner)
    requires inner.kind == TypeKind && inner.underlyingEnum != []
    ensures ResolveEnumForType(lookup, typeName, fromFile) == Some(inner)
  {
  }

  // ---------------------------------------------------------------------
  // resolve_import_dir (odin_plugin.py:634-668)
  // ---------------------------------------------------------------------

  /** `_normalize_path(os.path.join(root, imp.collection, imp.rel_path))` */
  function CollectionDir(root: string, imp: Import): string {
    Normalize(PathJoin(PathJoin(root, imp.collection), imp.relPath))
  }

  /** The root `root` is registered for a project folder holding `f`, and
      its collection directory exists. */
  predicate FolderHit(root: (string, string), f: string, imp: Import, existing: set<string>) {
    StartsWith(f, root.0) && CollectionDir(root.1, imp) in existing
  }

  /** The collection directory under `root` exists. */
  predicate RootHit(root: (string, string), imp: Import, existing: set<string>) {
    CollectionDir(root.1, imp) in existing
  }

  /** `roots[i]` is the first root registered for a folder holding `f`
      whose collection directory exists. */
  predicate FirstFolderHit(roots: seq<(string, string)>, f: string, imp: Import, existing: set<string>, i: int) {
    0 <= i < |roots| && FolderHit(roots[i], f, imp, existing)
    && forall k :: 0 <= k < i ==> !FolderHit(roots[k], f, imp, existing)
  }

  /** `roots[i]` is the first root whose collection directory exists. */
  predicate FirstRootHit(roots: seq<(string, string)>, imp: Import, existing: set<string>, i: int) {
    0 <= i < |roots| && RootHit(roots[i], imp, existing)
    && forall k :: 0 <= k < i ==> !RootHit(roots[k], imp, existing)
  }

  /** The first Odin root registered for a project folder that is a
      prefix of the file, whose collection directory exists. */
  function FromFolders(roots: seq<(string, string)>, f: string, imp: Import, existing: set<string>)
    : (r: Option<string>)
    ensures r.None? <==> forall root :: root in roots ==> !FolderHit(root, f, imp, existing)
    ensures r.Some? ==> r.value in existing
    ensures forall i :: FirstFolderHit(roots, f, imp, existing, i) ==> r == Some(CollectionDir(roots[i].1, imp))
  {
    if roots == [] then None
    else if FolderHit(roots[0], f, imp, existing) then Some(CollectionDir(roots[0].1, imp))
    else
      FoldersTail(roots, f, imp, existing);
      FromFolders(roots[1..], f, imp, existing)
  }

  /** Past a first root whose folder does not hold the file, or whose
      collection directory is missing, the first hit is the first hit of
      the others. */
  lemma FoldersTail(roots: seq<(string, string)>, f: string, imp: Import, existing: set<string>)
    requires roots != [] && !FolderHit(roots[0], f, imp, existing)
    ensures (forall root :: root in roots ==> !FolderHit(root, f, imp, existing))
        <==> (forall root :: root in roots[1..] ==> !FolderHit(root, f, imp, existing))
    ensures forall i :: FirstFolderHit(roots, f, imp, existing, i) ==>
      i >= 1 && FirstFolderHit(roots[1..], f, imp, existing, i - 1)
  {
    FoldersTailNone(roots, f, imp, existing);
    forall i | FirstFolderHit(roots, f, imp, existing, i)
      ensures i >= 1 && FirstFolderHit(roots[1..], f, imp, existing, i - 1)
    {
      forall k | 0 <= k < i - 1 ensures !FolderHit(roots[1..][k], f, imp, existing) {
        assert roots[1..][k] == roots[k + 1];
      }
    }
  }

  lemma FoldersTailNone(roots: seq<(string, string)>, f: string, imp: Import, existing: set<string>)
    requires roots != [] && !FolderHit(roots[0], f, imp, existing)
    ensures (forall root :: root in roots ==> !FolderHit(root, f, imp, existing))
        <==> (forall root :: root in roots[1..] ==> !FolderHit(root, f, imp, existing))
  {
    assert forall root :: root in roots <==> root == roots[0] || root in roots[1..];
  }

  /** The first Odin root of any project whose collection directory
      exists. */
  function FromAnyRoot(roots: seq<(string, string)>, imp: Import, existing: set<string>)
    : (r: Option<string>)
    ensures r.None? <==> forall root :: root in roots ==> !RootHit(root, imp, existing)
    ensures r.Some? ==> r.value in existing
    ensures forall i :: FirstRootHit(roots, imp, existing, i) ==> r == Some(CollectionDir(roots[i].1, imp))
  {
    if roots == [] then None
    else if RootHit(roots[0], imp, existing) then Some(CollectionDir(roots[0].1, imp))
    else
      RootsTail(roots, imp, existing);
      FromAnyRoot(roots[1..], imp, existing)
  }

  /** Past a first root whose collection directory is missing, the first
      hit is the first hit of the others. */
  lemma RootsTail(roots: seq<(string, string)>, imp: Import, existing: set<string>)
    requires roots != [] && !RootHit(roots[0], imp, existing)
    ensures (forall root :: root in roots ==> !RootHit(root, imp, existing))
        <==> (forall root :: root in roots[1..] ==> !RootHit(root, imp, existing))
    ensures forall i :: FirstRootHit(roots, imp, existing, i) ==> i >= 1 && FirstRootHit(roots[1..], imp, existing, i - 1)
  {
    RootsTailNone(roots, imp, existing);
    forall i | FirstRootHit(roots, imp, existing, i)
      ensures i >= 1 && FirstRootHit(roots[1..], imp, existing, i - 1)
    {
      forall k | 0 <= k < i - 1 ensures !RootHit(roots[1..][k], imp, existing) {
        assert roots[1..][k] == roots[k + 1];
      }
    }
  }

  lemma RootsTailNone(roots: seq<(string, string)>, imp: Import, existing: set<string>)
    requires roots != [] && !RootHit(roots[0], imp, existing)
    ensures (forall root :: root in roots ==> !RootHit(root, imp, existing))
        <==> (forall root :: root in roots[1..] ==> !RootHit(root, imp, existing))
  {
    assert forall root :: root in roots <==> root == roots[0] || root in roots[1..];
  }

  /** The directory a relative import names, next to the importing file. */
  function RelativeDir(normpath: string -> string, f: string, imp: Import): string {
    Normalize(normpath(PathJoin(Dirname(f), imp.relPath)))
  }

  /** The lookup `resolve_import_dir` performs when nothing is cached. */
  function FindImportDir(roots: seq<(string, string)>, existing: set<string>, normpath: string -> string,
                         f: string, imp: Import): (r: Option<string>)
    ensures r.Some? ==> r.value in existing
    ensures imp.collection == [] ==> (r.Some? <==> RelativeDir(normpath, f, imp) in existing)
    ensures imp.collection == [] && RelativeDir(normpath, f, imp) in existing ==> r == Some(RelativeDir(normpath, f, imp))
    ensures imp.collection != [] ==> (r.None? <==> forall root :: root in roots ==> CollectionDir(root.1, imp) !in existing)
    ensures imp.collection != [] ==>
      forall i :: FirstFolderHit(roots, f, imp, existing, i) ==> r == Some(CollectionDir(roots[i].1, imp))
    ensures imp.collection != [] && (forall k :: 0 <= k < |roots| ==> !FolderHit(roots[k], f, imp, existing)) ==>
      forall i :: FirstRootHit(roots, imp, existing, i) ==> r == Some(CollectionDir(roots[i].1, imp))
  {
    if imp.collection != [] then
      var near := FromFolders(roots, f, imp, existing);
      if near.Some? then near else FromAnyRoot(roots, imp, existing)
    else
      var d := RelativeDir(normpath, f, imp);
      if d in existing then Some(d) else None
  }

  /** `resolve_import_dir(filepath, imp)` against the set of directories
      that exist and a given `os.path.normpath`: the import's cached
      directory when it has one; otherwise the lookup, whose success is
      stored in the import that is handed back. A failure stores nothing. */
  function ResolveImportDir(roots: seq<(string, string)>, existing: set<string>, normpath: string -> string,
                            filepath: string, imp: Import): (r: (Option<string>, Import))
    ensures imp.resolvedDir != [] ==> r == (Some(imp.resolvedDir), imp)
    ensures imp.resolvedDir == [] && r.0.Some? ==> r.0.value in existing && r.1 == imp.(resolvedDir := r.0.value)
    ensures r.0.None? ==> r.1 == imp
  {
    if imp.resolvedDir != [] then (Some(imp.resolvedDir), imp)
    else
      var found := FindImportDir(roots, existing, normpath, Normalize(filepath), imp);
      if found.Some? then (found, imp.(resolvedDir := found.value)) else (None, imp)
  }

  /** Resolving again with the import handed back gives the same
      directory and the same import: the cache never changes an answer
      while the directories stay as they are. */
  lemma CacheIsTransparent(roots: seq<(string, string)>, existing: set<string>, normpath: string -> string,
                           filepath: string, imp: Import)
    ensures ResolveImportDir(roots, existing, normpath, filepath,
                             ResolveImportDir(roots, existing, normpath, filepath, imp).1)
         == ResolveImportDir(roots, existing, normpath, filepath, imp)
  {
    var r := ResolveImportDir(roots, existing, normpath, filepath, imp);
    if imp.resolvedDir == [] && r.0.Some? && r.0.value == [] {
      assert r.1 == imp;
    }
  }

  /** A failed resolution is not remembered: once the directory exists,
      the import handed back resolves to it. */
  lemma FailureIsRetried(roots: seq<(string, string)>, existing: set<string>, later: set<string>,
                         normpath: string -> string, filepath: string, imp: Import)
    requires imp.resolvedDir == [] && imp.collection == []
    requires ResolveImportDir(roots, existing, normpath, filepath, imp).0.None?
    requires RelativeDir(normpath, Normalize(filepath), imp) in later
    ensures ResolveImportDir(roots, later, normpath, filepath,
                             ResolveImportDir(roots, existing, normpath, filepath, imp).1).0
         == Some(RelativeDir(normpath, Normalize(filepath), imp))
  {
  }
}
