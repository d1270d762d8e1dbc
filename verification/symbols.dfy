/** The two records the indexer produces: a declared `Symbol` and an
    `Import` statement (odin_plugin.py:22-56). */
module Symbols {

  /** The `kind` tag of a symbol; the source spells these 'proc',
      'proc_group', 'struct', 'enum', 'union', 'type', 'const' and 'var'. */
  datatype Kind = Proc | ProcGroup | Struct | Enum | Union | TypeKind | Const | Var

  /** A parameter of a procedure: its name and its type text ('' when the
      type is inferred from a default value). */
  datatype Param = Param(name: string, typ: string)

  /** One declared name. `fields` and `usingTypes` are filled for structs,
      `variants` for enums, `params` and `returnType` for procedures, and
      `underlyingEnum` for `bit_set[E]` types. `line` and `col` are 1-based;
      a `col` of 0 means "not recorded". */
  datatype Symbol = Symbol(
    name: string,
    kind: Kind,
    signature: string,
    file: string,
    line: int,
    col: int,
    packageDir: string,
    packageName: string,
    fields: map<string, string>,
    variants: seq<string>,
    params: seq<Param>,
    returnType: string,
    isPrivate: bool,
    underlyingEnum: string,
    usingTypes: seq<string>)

  /** A symbol with every optional attribute at its default, as the
      `Symbol` constructor leaves it when only the common keywords are
      passed. */
  function NewSymbol(name: string, kind: Kind, signature: string, file: string, line: int,
                     col: int, packageDir: string, packageName: string, isPrivate: bool): (s: Symbol)
    ensures s.name == name && s.kind == kind && s.file == file && s.packageDir == packageDir
    ensures s.fields == map[] && s.variants == [] && s.params == [] && s.usingTypes == []
    ensures s.returnType == [] && s.underlyingEnum == []
  {
    Symbol(name, kind, signature, file, line, col, packageDir, packageName,
           map[], [], [], [], isPrivate, [], [])
  }

  /** One import statement; `resolvedDir` is the cached package directory,
      empty until a resolution succeeds. */
  datatype Import = Import(alias: string, collection: string, relPath: string, resolvedDir: string)
}
