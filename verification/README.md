# Odin symbol indexer, modelled in Dafny

This project models the indexing core of `odin_plugin.py`, a Sublime Text
plugin for the Odin language. The plugin reads Odin source files line by
line and records their declarations in a symbol index. Completion, hover
and goto-definition then answer from that index. The model covers:

- the bracket-aware text helpers `_split_balanced` and `_find_colon_depth0`
  (`balanced.dfy`);
- the body parsers for structs, enums and procedure parameters, and
  `_extract_proc_signature` (`bodies.dfy`);
- the per-line recognisers of `parse_file`: comments, `package`, `import`,
  attributes and declaration heads (`lines.dfy`);
- the `parse_file` state machine, with the file's text passed in
  (`parser.dfy`);
- the `OdinIndex` maps with `clear`, `remove_file`, `index_file` and the
  getters (`index.dfy`);
- `lookup_type`, `resolve_fields`, `resolve_enum_for_type` and
  `resolve_import_dir` (`resolve.dfy`);
- the two line scanners of the completion code: `_find_enclosing_call`,
  and the chain walk of `_get_word_before_dot` (`calls.dfy`).

Supporting modules:

- `wrappers.dfy` defines `Option`.
- `text.dfy` defines the Python `str` operations the parser relies on:
  `strip`, `find`, `split`, `join`, `splitlines`, and others.
- `symbols.dfy` defines the `Symbol` and `ImportInfo` records.
- `paths.dfy` defines `_normalize_path` and the `posixpath` functions
  `dirname` and `join`.

Everything is modelled as pure functions over immutable datatypes:

- The index is a record of maps.
- An operation that mutates the index in Python returns a new index here.
- A Python loop over lines or parts is a recursive function over a sequence.

Three things outside the plugin become parameters:

- the file's content;
- the resolution of an import to a directory, for the lookups;
- the set of directories that exist and `os.path.normpath`, for
  `resolve_import_dir`.

## Model

| member | source | states |
|---|---|---|
| `Balanced.SplitBalanced` | odin_plugin.py:63-80 | The result is empty exactly when the text is. Joining the parts with the separator rebuilds the text, plus one separator when the text ends with a depth-0 cut. No part holds a separator read at depth 0. Every part except the last is balanced once its separator is added. An empty last part occurs only after a final cut. |
| `Balanced.SplitBalancedPlainHead` | odin_plugin.py:68-77 | Suppose a first part holds no separator and no bracket. Then it is cut off at the first separator, and the rest is split on its own. |
| `Balanced.SplitBalancedPlain` | odin_plugin.py:78-80 | A non-empty text with no separator and no bracket comes back as a single part. |
| `Balanced.FindColonDepth0` | odin_plugin.py:83-93 | Returns -1 exactly when no colon is read at bracket depth 0. Otherwise it returns the index of such a colon, and no earlier colon is at depth 0. |
| `Balanced.FindAtDepth0` | odin_plugin.py:185-193 | Returns the first index where the character is read at depth 0. It returns -1 exactly when there is no such index. `_parse_proc_params` uses this to cut off a default value. |
| `Bodies.CommentLinesIgnored` | odin_plugin.py:109-114 | Inserting a blank line or a `//` line anywhere in a body does not change the text the struct and enum parsers split. |
| `Bodies.StructFields` | odin_plugin.py:104-140 | The embedded types are exactly the types of the `using` declarations, in source order. No field name is empty. |
| `Bodies.FieldStep` | odin_plugin.py:118-138 | A declaration does four things: every pending name and every one of its own names gets its type; every other field is unchanged; the pending list is emptied; and the key set grows by exactly those names. A bare name joins the pending list. A blank part changes nothing. |
| `Bodies.UsingTypesInOrder` | odin_plugin.py:122-135 | The loop appends the type of each `using` declaration, in the order the parts come. |
| `Bodies.BareNamesWait` | odin_plugin.py:137-138 | Colon-less parts add their names to the pending list, in order. Nothing else changes. |
| `Bodies.GroupedFieldsShareType` | odin_plugin.py:128-136 | Names grouped before one colon receive that declaration's type. This includes names that arrived as earlier comma parts. The pending list is then empty. |
| `Bodies.LaterFieldWins` | odin_plugin.py:132-133 | A later declaration of a name overwrites an earlier one. |
| `Bodies.EnumVariants` | odin_plugin.py:143-160 | Every variant is a non-empty run of word characters. |
| `Bodies.VariantsInOrder` | odin_plugin.py:152-159 | The variants of consecutive parts are those of the first parts followed by those of the rest, so declaration order is kept. |
| `Bodies.VariantIgnoresValue` | odin_plugin.py:156-159 | A part `NAME = value` yields the variant `NAME`. |
| `Bodies.PlainVariants` | odin_plugin.py:152-159 | Suppose every comma part is an identifier with surrounding whitespace. Then there is one variant per part, and it is that identifier, in order. |
| `Bodies.CutDefault` | odin_plugin.py:183-193 | With no `=` at depth 0, the parameter type is the whole tail. Otherwise it is the stripped text before the first such `=`, and strictly shorter than the tail. |
| `Bodies.TypedParamPart` | odin_plugin.py:178-197 | The part ` b: t` reads as one name `b` of type `t`. |
| `Bodies.InferredParam` | odin_plugin.py:171-176 | The list ` n := x` gives the one parameter `n` of unknown type `''`, whether read as written or with the correction. Whatever follows `:=` is ignored, provided it holds no depth-0 comma. |
| `Bodies.DefaultParam` | odin_plugin.py:178-193 | The part ` b: t = d` reads as the name `b` of type `t`. The default value after the depth-0 `=` is cut off. |
| `Bodies.TwoTypedParams` | odin_plugin.py:163-198 | With the correction, the list ` a: t1, b: t2, ` gives `(a, t1)` and `(b, t2)`. The blank part after the trailing comma adds nothing. |
| `Bodies.AsWrittenDropsGroupedNames` | odin_plugin.py:166-198 | As written, colon-less parts before a declaration add no parameters. |
| `Bodies.AsWrittenLosesGroupedName` | odin_plugin.py:163-198 | As written, `a, b: t` gives only the parameter `(b, t)`. |
| `Bodies.GroupedParamsShareType` | odin_plugin.py:194-197 | In the corrected parser, every name of a group `a, b, c: T` gets type `T`, in order. This includes names that arrived as separate parts. Parsing then continues with the next group. |
| `Bodies.GroupedKeepsGroupedName` | odin_plugin.py:163-198 | In the corrected parser, `a, b: t` gives `(a, t)` and `(b, t)`. |
| `Bodies.GroupedAgreesWhenUngrouped` | odin_plugin.py:167-197 | When every part has its own colon or `:=`, the corrected parser and the code as written agree. |
| `Bodies.EmptyParamList` | odin_plugin.py:163-167 | A blank parameter list has no parameters, whether read as written (`ProcParamsAsWritten`) or with the correction (`ProcParams`). |
| `Bodies.ProcParamsAgree` | odin_plugin.py:163-198 | `ProcParams` and `ProcParamsAsWritten` agree on every parameter list where each comma part has its own colon or `:=`. |
| `Bodies.SearchProcParen` | odin_plugin.py:210 | Like `re.search`, it finds the leftmost position at or after the start where the `proc(` pattern matches, and no earlier position matches. When it finds nothing, the pattern matches nowhere from the start on. |
| `Bodies.CloseParenFrom` | odin_plugin.py:216-226 | Returns the first `)` at which the parenthesis depth, counted from the opening paren, returns to 0. It returns the opening index exactly when no `)` balances the paren. |
| `Bodies.ParamSpanOf` | odin_plugin.py:210-226 | There is no span exactly when the pattern matches nowhere. Otherwise the span opens at the `(` of the leftmost match. It closes at the first `)` that balances that paren. It closes at the `(` itself exactly when no `)` balances it. |
| `Bodies.ReturnTypeOf` | odin_plugin.py:231-243 | The return type holds no `{` and ends in neither a space nor a comma. It is empty when the text after the parameters does not start with `->`. |
| `Bodies.ReturnTypeRoundTrip` | odin_plugin.py:231-243 | A type written after `->` reads back whole in three places: at the end of the text, before the body's ` {`, and before a stray `, {`. |
| `Bodies.SignatureEnd` | odin_plugin.py:246-250 | Points at the first `{` at or after the parameters, or at the end of the text. No `{` lies in between. |
| `Bodies.ExtractProcSignature` | odin_plugin.py:201-252 | As written. Without a `proc(` match, the result is `(full_text, [], '')`. Otherwise `_parse_proc_params` as written reads the parameters, between the paren and its balancing `)`. The signature is the stripped text before the first `{` after that `)`. The return type is read from the stripped text after the `)`. |
| `Bodies.ExtractedReturnShape` | odin_plugin.py:231-243 | The return type an extraction reports holds no `{` and ends in neither a space nor a comma. |
| `Bodies.ProcSignatureRoundTrip` | odin_plugin.py:201-252 | For a one-line `name :: proc(params) -> ret {` declaration, the span is exactly `(params)`. The parameter text is `params`. The signature is the line up to ` {`, and the return type is `ret`. |
| `Bodies.FixedProcLine` | odin_plugin.py:201-252 | For a one-line `name :: proc(params) -> ret {` declaration, the corrected extractor gives the line up to ` {` as the signature. It reads the parameters of `params` with the grouped-name parser, and gives `ret` as the return type. |
| `Bodies.ExtractProcSignatureFixed` | odin_plugin.py:201-252 | The corrected extractor. It has the same signature and return type as the code as written, and reads the parameters of the same span with the grouped-name parser. |
| `Bodies.FixedSignatureAgrees` | odin_plugin.py:163-252 | When no part of the parameter list is a bare name, the corrected extractor and the code as written give the same result. |
| `Lines.RemoveBlockComments` | odin_plugin.py:298 | The result is never longer than the input. A line without `/*` is unchanged. |
| `Lines.ClosedCommentRemoved` | odin_plugin.py:298 | A closed `/* ... */` is removed. The text before it is kept, and the rest is processed again. |
| `Lines.CleanLine` | odin_plugin.py:284-311 | Inside an open block comment, a line without `*/` is skipped and the comment stays open. A line inside a block comment that holds `*/` is read again as the stripped text after the first `*/`, with the comment closed. A line that is not skipped has text. A line with no comment markers passes through as the stripped line. |
| `Lines.LineCommentCut` | odin_plugin.py:305-308 | The line is cut at the first `//` exactly when an even number of quotes precedes it. Otherwise it is unchanged. |
| `Lines.PackageRoundTrip` | odin_plugin.py:366-370 | `package name` reads back as `name`, whatever non-word text follows. |
| `Lines.SplitCollection` | odin_plugin.py:377-379 | When the path has a colon, joining the collection, `:` and the relative path rebuilds it, and the collection has no colon. Otherwise the collection is empty. |
| `Lines.DefaultAliasLastComponent` | odin_plugin.py:380-381 | The default alias is the last path component. Trailing slashes do not change it. |
| `Lines.ImportFromPath` | odin_plugin.py:373-382 | The import's collection and relative path rebuild the quoted path. An explicit alias is kept. Otherwise the alias is the default alias of the relative path. Nothing is resolved yet. |
| `Lines.ImportRoundTrip` | odin_plugin.py:373-382 | `import alias "path"` reads back as that alias and path. |
| `Lines.ImportRoundTripUnaliased` | odin_plugin.py:373-382 | `import "path"` reads back as that path, with the default alias. |
| `Lines.AttributeEnd` | odin_plugin.py:386-394 | A matched attribute starts with `@`, spans at least two characters, and is followed by the end of the line or a non-space. |
| `Lines.AttributeWordRoundTrip` | odin_plugin.py:386-394 | `@word` followed by one blank ends where the next text begins. |
| `Lines.AttributeListRoundTrip` | odin_plugin.py:386-394 | `@(...)` ends just after its `)` when the text that follows does not start with whitespace. |
| `Lines.DeclHeadRoundTrip` | odin_plugin.py:397-400 | `name :: rest` reads back as `name` and the stripped `rest`. |
| `Lines.BitSetEnum` | odin_plugin.py:488-492 | The element type of a bit set is an identifier. |
| `Lines.BitSetRoundTrip` | odin_plugin.py:488-492 | `bit_set[E]...` and `distinct bit_set[E]...` read back as `E`. |
| `Lines.BitSetNeedsPattern` | odin_plugin.py:488-492 | Text that never mentions `bit_set[` has no element type. |
| `Lines.BraceBodyRoundTrip` | odin_plugin.py:441-443 | A body written between one pair of braces on one line is found again. |
| `Text.SplitLinesCons` | odin_plugin.py:267 | A line with no line break, followed by `\n`, is the first line `splitlines` gives. The rest of the text is split on its own. |
| `Parser.DeclOf` | odin_plugin.py:396-512 | The symbol gets the line's name, file, package directory, line number and pending-private flag. The kind is decided by the first head pattern matched, in the source's order. A procedure group is finished on its line. A procedure stays open while its parentheses do; once closed, it has the signature, parameters and return type of the extracted signature. A struct or enum closed on its line has the fields or variants of its one-line body. A union stays open while its braces do. A bit set over `E` is a type with underlying enum `E`. Another `distinct` value is a type, and everything else is a constant. |
| `Parser.WalrusOf` | odin_plugin.py:514-534 | A `:=` line makes a variable with the line's name, file, package directory, line number and private flag. An unclosed brace starts skipping at a positive depth. |
| `Parser.CollectKeeps` | odin_plugin.py:313-364 | A line inside a multi-line body keeps the parser invariant. It never drops a recorded symbol and leaves the imports and package name alone. |
| `Parser.CollectBody` | odin_plugin.py:313-353 | Take any step function that handles a line of an open body as the parser does. Over uncommented lines that keep the body open, it collects the lines stripped and in order. The depth grows by their net bracket count, and nothing else changes. |
| `Parser.StepCollectBody` | odin_plugin.py:313-353 | The parser's own step collects such lines in that way. |
| `Parser.StructCloses` | odin_plugin.py:314-326 | The line that brings a struct's brace depth to 0 records the struct. It gets the fields and embedded types of the lines collected before that line, and the signature `name :: struct`. The parser is then idle. |
| `Parser.EnumCloses` | odin_plugin.py:328-337 | The line that brings an enum's brace depth to 0 records the enum, with the variants of the lines collected before it. The parser is then idle. |
| `Parser.ProcCloses` | odin_plugin.py:339-353 | The line that brings a procedure header's paren depth to 0 joins the header. The procedure is recorded with the signature, parameters and return type that the corrected extractor (`ExtractProcSignatureFixed`) reads from all the header lines joined by blanks. The parser is then idle. |
| `Parser.StructOverLines` | odin_plugin.py:313-327 | Take a struct opened on its declaration line, kept open by its body lines and closed by another line. It is recorded exactly once, with the fields of the stripped body lines. The parser is idle again, and the imports and package name are unchanged. |
| `Parser.EnumOverLines` | odin_plugin.py:328-337 | An enum opened, kept open and closed over several lines is recorded exactly once, with the variants of the stripped body lines. The parser is idle again, and the imports and package name are unchanged. |
| `Parser.ProcOverLines` | odin_plugin.py:338-353 | A procedure header whose parameter list spans several lines is recorded exactly once. Its signature, parameters and return type are read by the corrected extractor (`ExtractProcSignatureFixed`) from the head, body and closing lines, stripped and joined by blanks. The parser is idle again. |
| `Parser.ProcHeaderFile` | odin_plugin.py:255-364 | A file holds the lines `n :: proc(`, `  a: t1,`, `  b: t2,`, `) -> ret {` and `}`. It parses to exactly one procedure `n` on line 1, filed under the file and its directory. Its signature is the header lines joined by blanks. Its parameters are `(a, t1)` and `(b, t2)`, and its return type is `ret`. |
| `Parser.MultiLineProcFile` | odin_plugin.py:255-364 | The file `f :: proc(\n  a: int,\n  b: string,\n) -> bool {\n}` parses to the one procedure `f` on line 1. Its signature is `f :: proc( a: int, b: string, ) -> bool`, its parameters are `(a, int)` and `(b, string)`, and its return type is `bool`. |
| `Parser.BraceLineKeeps` | odin_plugin.py:366-536 | A lone `}` read while no body is open records no symbol. |
| `Parser.Step` | odin_plugin.py:281-536 | One line only ever appends symbols and imports: the earlier ones stay a prefix. |
| `Parser.PackageLineSets` | odin_plugin.py:366-370 | A `package` line read while no body is open sets the file's package name to its word. The block-comment state is updated, and nothing else changes: no symbol or import is added, and a pending `@private` is kept. |
| `Parser.ImportLineAppends` | odin_plugin.py:372-383 | An `import` line read while no body is open, and not read as a package line, appends its import after the earlier ones. The block-comment state is updated, and nothing else changes. |
| `Parser.PackageImportFile` | odin_plugin.py:366-383 | The file `package p` followed by `import alias "path"` parses to package `p`, no symbols, and the one import with that alias, the collection and relative path of `path`, and no resolved directory. |
| `Parser.StepKeeps` | odin_plugin.py:281-536 | One line keeps the parser invariant and never drops a recorded symbol. The invariant: every symbol is filed under this file and its directory, with an identifier name and a line number already read; and every import is unresolved. |
| `Parser.Run` | odin_plugin.py:281-536 | Over any run of lines, the invariant holds up to the last line number, and earlier symbols stay a prefix. |
| `Parser.ParseFile` | odin_plugin.py:255-538 | Every symbol comes from this file and sits under the normalised directory of the file. It has an identifier name and the number of one of the file's lines. No import is resolved. |
| `Parser.UnreadableIsEmpty` | odin_plugin.py:260-265 | An unreadable file gives `('', [], [])`, the same as an empty file. |
| `Parser.InsideBlockComment` | odin_plugin.py:285-293 | Inside an open block comment, a line without `*/` changes nothing. |
| `Parser.PrivateAppliesToNextDeclaration` | odin_plugin.py:396-402 | A `name ::` line declares `name`, takes a pending `@private` for itself, and clears the flag for later lines. |
| `Parser.OtherLineCancelsPrivate` | odin_plugin.py:536 | A line that declares nothing clears a pending `@private` and changes nothing else. |
| `Parser.AttributeLineRemembered` | odin_plugin.py:385-393 | An attribute alone on its line sets the pending flag when it mentions `private`. It changes nothing else. |
| `Parser.ImportOfUnresolved` | odin_plugin.py:382 | A parsed import carries no resolved directory. |
| `Parser.OneLineFile` | odin_plugin.py:255-538 | A file whose one line is a declaration closed on that line parses to exactly the symbol `DeclOf` makes for that line, with the kind and payload it states. |
| `Parser.OneLineConstant` | odin_plugin.py:506-512 | The file `X :: 5` parses to exactly one symbol: the constant `X`, on line 1, under the file's directory. |
| `Paths.Normalize` | odin_plugin.py:96-97 | The same length. Every backslash becomes `/`, every other character stays, and no backslash remains. |
| `Paths.NormalizeIdempotent` | odin_plugin.py:96-97 | A path without backslashes is its own normal form, so normalising twice equals normalising once. |
| `Index.Clear` | odin_plugin.py:555-561 | Clearing empties the name, package, file-symbol, file-import and package-name tables. It keeps the registered Odin roots. |
| `Index.ClearWF` | odin_plugin.py:555-561 | The cleared index is well formed. |
| `Index.WithoutMembers` | odin_plugin.py:569 | The filtered list holds exactly the entries of the old list from other files. |
| `Index.RemoveFile` | odin_plugin.py:563-573 | `remove_file(f)` drops `f` from the symbol and import tables. Every other file keeps its entries, no file is added, and the package names and roots are unchanged. |
| `Index.RemoveFileNames` | odin_plugin.py:566-569 | After `remove_file(f)`, every name's list is the old list with `f`'s symbols filtered out. |
| `Index.RemoveFilePkgs` | odin_plugin.py:570-572 | After `remove_file(f)`, a package entry is deleted exactly when it was one of `f`'s symbols and still held by `f`. Every other entry is unchanged. |
| `Index.RemoveFileForgets` | odin_plugin.py:563-573 | `remove_file(f)` keeps the index well formed and forgets `f` completely. `f` leaves the symbol and import tables, the other files keep theirs, and no name list or package entry mentions `f`. Package names and roots are unchanged. |
| `Index.IndexFile` | odin_plugin.py:575-592 | `index_file(f, c)` records the parse of `c` as `f`'s symbols and imports, under the normalised path. Every other file keeps its symbols, and no other file is added. A file with a package name records it for its directory. The roots are unchanged. |
| `Index.IndexFileRecordsParse` | odin_plugin.py:575-592 | `index_file(f, c)` keeps the index well formed. `f`'s symbols and imports become the parse of `c`, and the other files keep theirs. Each name list becomes the old one without `f`'s symbols, followed by the new symbols of that name. |
| `Index.ReindexNames` | odin_plugin.py:581-591 | After re-indexing, the names are the old names plus those of the old and new symbols. Each list is the filtered old list followed by the new symbols. |
| `Index.ReindexPkgs` | odin_plugin.py:581-592 | After re-indexing, a package entry is the last new symbol filed there, when there is one. Otherwise it is the entry that survived removal. |
| `Index.IndexFileIdempotent` | odin_plugin.py:575-592 | Indexing the same content twice gives the same index as indexing it once. |
| `Index.GetFileImports` | odin_plugin.py:670-673 | Returns the file's recorded imports under its normalised path, or none. |
| `Index.GetPackageSymbols` | odin_plugin.py:675-678 | In a well-formed index, every entry is stored under its own name. It is filed under the normalised directory asked for, and its file lists it. |
| `Index.GetSymbolsByName` | odin_plugin.py:680-682 | In a well-formed index, every symbol returned has the name asked for, and its file lists it. |
| `Index.GetAllAccessibleSymbols` | odin_plugin.py:684-693 | The result is the package of the file's directory. In a well-formed index, every entry is named by its key and filed under that directory. |
| `Index.IndexedNamesAccessible` | odin_plugin.py:575-693 | After `index_file(f, c)`, every symbol parsed from `c` is accessible from `f` by name. It maps to the last parsed symbol of that name. |
| `Resolve.LookupImported` | odin_plugin.py:721-729 | Nothing is found exactly when no import's package declares the name. Otherwise the first such import supplies it. |
| `Resolve.LookupQualified` | odin_plugin.py:703-712 | With no resolvable import of the alias, nothing is found. Otherwise the first one decides: its package's entry for the name, or nothing. |
| `Resolve.LookupType` | odin_plugin.py:695-729 | An empty name finds nothing. An unqualified name that the file's own package declares resolves there, whatever the imports say. Whatever is found is a symbol held by the index's package map. |
| `Resolve.LookupTypeName` | odin_plugin.py:695-729 | In a well-formed index, an unqualified lookup only finds a symbol of that name. |
| `Resolve.ResolveFieldsAsWritten` | odin_plugin.py:731-740 | Gives no fields for a missing symbol or a non-struct. A resolved struct keeps at least its own field names. |
| `Resolve.CycleExhaustsFuel` | odin_plugin.py:736-739 | As written, two structs that embed each other never resolve, whatever the recursion bound. |
| `Resolve.ParentFieldWins` | odin_plugin.py:739 | As written, the result is the child's fields updated with the parent's. A parent field replaces the child's field of the same name. |
| `Resolve.ResolveFields` | odin_plugin.py:731-740 | The corrected version, which records the structs on the way, is defined for every symbol. It gives nothing for a non-struct, and a struct keeps its own field names. |
| `Resolve.CycleResolves` | odin_plugin.py:731-740 | In the corrected version, two structs that embed each other resolve. The first gets its own fields updated with the second's. |
| `Resolve.IndexResolveFields` | odin_plugin.py:731-740 | The corrected `resolve_fields` over an index's lookup is total, with the same shape guarantees. |
| `Resolve.AsWrittenMonotone` | odin_plugin.py:731-740 | As written, a resolution that ends within a recursion bound ends the same way under any larger bound. |
| `Resolve.AsWrittenAgrees` | odin_plugin.py:731-740 | Wherever the code as written ends, the corrected version gives the same fields. |
| `Resolve.IndexResolveAgrees` | odin_plugin.py:731-740 | Over an index's lookup, `IndexResolveFields` gives the fields of the code as written wherever that ends. |
| `Resolve.ParentFieldsIncluded` | odin_plugin.py:735-739 | Every struct that a `using` of a struct names, other than itself, contributes all its field names to the resolved fields. |
| `Resolve.ResolveEnumForType` | odin_plugin.py:742-753 | A missing symbol gives nothing, and an enum is returned as it is. Any other answer comes from a type with an underlying enum: it is the lookup of that enum's name. Symbols of other kinds give nothing. |
| `Resolve.EnumOneRedirect` | odin_plugin.py:742-753 | A found symbol is either the named symbol, when that is an enum, or the lookup of a type's underlying enum. Other kinds give nothing. The result is held by the lookup's universe. |
| `Resolve.EnumRedirectStops` | odin_plugin.py:752-753 | At most one redirect is followed. A bit set of a bit set returns the inner type unchecked. |
| `Resolve.FromFolders` | odin_plugin.py:645-652 | Nothing is found exactly when no registered folder that prefixes the file has an existing collection directory. A found directory exists. The answer is the directory under the first root, in registration order, whose folder prefixes the file and whose directory exists. |
| `Resolve.FromAnyRoot` | odin_plugin.py:654-659 | Nothing is found exactly when no root has an existing collection directory. A found directory exists. The answer is the directory under the first root, in registration order, whose directory exists. |
| `Resolve.FindImportDir` | odin_plugin.py:642-668 | A found directory exists. A relative import resolves exactly when its directory beside the file exists, and then to that directory. A collection import resolves exactly when some root has its directory. It resolves to the directory of the first root whose folder holds the file and has a hit. When no such folder exists, it resolves to the directory of the first root with a hit. |
| `Resolve.ResolveImportDir` | odin_plugin.py:634-668 | A cached directory is returned as it is. A fresh success is an existing directory, stored in the import handed back. A failure changes nothing. |
| `Resolve.CacheIsTransparent` | odin_plugin.py:639-640 | Resolving again with the import handed back gives the same answer and the same import. |
| `Resolve.FailureIsRetried` | odin_plugin.py:660-668 | A failed relative import is not cached. Once its directory exists, it resolves to it. |
| `Calls.CallName` | odin_plugin.py:1059-1065 | The name is the longest run of letters, digits, `_` and `.` that ends where the blanks before the paren begin. |
| `Calls.CallAt` | odin_plugin.py:1056-1068 | An empty name gives `(None, 0)`, and only an empty name does. Otherwise the result is that name with the comma count. |
| `Calls.FindEnclosingCall` | odin_plugin.py:1041-1078 | The answer is stated against an independent reading of depth as a sum over the text after each position. When an enclosing paren exists (a `(` at depth 0 with none after it), the answer is the name before it with the count of depth-0 commas after it. When none exists, the answer is `(None, 0)`. |
| `Calls.ScanMatches` | odin_plugin.py:1051-1078 | Take any point of the backward scan where no `(` already passed is at depth 0. From there, the scan gives the answer of the independent depth reading. |
| `Calls.EnclosesUnique` | odin_plugin.py:1055-1056 | There is at most one enclosing paren. |
| `Calls.OpenBraceHidesCall` | odin_plugin.py:1072-1073 | As written, `f({.` gives `(None, 0)`. |
| `Calls.OpenBraceKeepsCall` | odin_plugin.py:1041-1078 | With the correction, `f({.` gives `(f, 0)`. |
| `Calls.FixedAgreesWithoutBraces` | odin_plugin.py:1051-1076 | On text without `{`, the corrected scan and the code as written agree. |
| `Calls.FindEnclosingCallFixed` | odin_plugin.py:1041-1078 | The corrected scan pairs no name only with index 0. On text without `{`, it agrees with the code as written. |
| `Calls.ChainParts` | odin_plugin.py:842-869 | Every part of the chain is a non-empty identifier. |
| `Calls.ChainRoundTrip` | odin_plugin.py:842-869 | Take dot-joined identifiers written after a non-identifier, non-dot character, or at line start. The walk reads back exactly those identifiers, and the prefix text is their dotted join. |
| `Calls.WalkIdentifiers` | odin_plugin.py:846-863 | The walk only puts non-empty identifiers in front of those it already has. |

## Left out

- Sublime Text itself is not modelled: views, completion items, hover HTML, the goto and find-references commands, event listeners, the completion cache and plugin loading (odin_plugin.py:1085-1627).
- Threads and the index lock are not modelled. The index is single-threaded: every operation is one function from index to index.
- Reading a file is left out. `parse_file` takes `Option<string>`, where `None` stands for a file that cannot be read.
- `index_directory` is left out, because it walks the file system. `find_odin_root` is left out for the same reason. The Odin roots are a plain field of the index.
- `resolve_import_dir` probes a given set of existing directories and takes `os.path.normpath` as a parameter.
  - The roots are a sequence of (project folder, root) pairs in insertion order.
  - The second loop iterates over `set(values)` in that same order. Python's set order is not specified.
- `resolve_import_dir` stores a found directory inside the import object. Here it returns the updated import and does not write it back into the index. The lookups take the resolution as a `Resolver` function.
- `_find_variable_type` and `_find_expected_enum_type` are left out, because they read the editor buffer. The same goes for gathering the line text in `_get_word_before_dot`. The text before the cursor is a parameter of the scanners.
- `str.isalnum` and the regular-expression class `\w` cover ASCII letters and digits only. Python also accepts non-ASCII letters. `str.isspace` and `splitlines` follow Python in full.
- `posixpath` is the model of `os.path`. Windows path handling is left out, apart from the backslash replacement of `_normalize_path`.
- `Resolve.ResolveFieldsAsWritten`: a `fuel` bound stands for Python's recursion limit. `None` means the bound ran out, which in Python is a `RecursionError`.
- `Resolve.EnumOneRedirect`, `Resolve.EnumRedirectStops` and `Resolve.FailureIsRetried` follow directly from the definitions they describe. They record the intended reading, but they need no separate proof.
- Struct fields are a Dafny `map` from name to type. Python's `dict` also keeps the order in which the fields were declared; the model does not record that order.
- `Parser.DeclOf` reads a finished procedure with `ExtractProcSignatureFixed`, so the parameters of a grouped `a, b: T` list are those of the corrected parser. `_extract_proc_signature` as written is `Bodies.ExtractProcSignature` (see the findings below).
- `Parser.StructOverLines`: the body lines must be uncommented and non-blank. Bodies with blank or comment lines inside are not covered by this lemma.
- `Parser.EnumOverLines`: the same restriction on the body lines.
- `Parser.ProcOverLines`: the same restriction on the header lines. It also states the corrected extractor, as `Parser.ProcCloses` does.
- `Parser.ProcCloses`: a multi-line procedure header is read with `ExtractProcSignatureFixed`. odin_plugin.py:348 calls `_extract_proc_signature` as written, so there a grouped `a, b: int` over several lines keeps only `b`. The model keeps both, and so do `Parser.ParseFile` and `Index.IndexFile` for such headers. The code as written is `Bodies.ExtractProcSignature`.
- `Parser.PackageImportFile`: covers one import with an explicit alias and a path without `/`. Other import lines are covered one line at a time by `Lines.ImportRoundTrip`, `Lines.ImportRoundTripUnaliased` and `Parser.ImportLineAppends`.
- `Parser.ProcHeaderFile`: covers one parameter per line, with names and types that are identifiers.
- Union bodies and the blocks skipped after a multi-line `:=` value have no lemma over several lines. `Parser.CollectKeeps` covers them only through the parser invariant.
- `get_all_accessible_symbols` returns the file's own package only, as the code does. Its docstring also promises imported packages.

## Findings

| source | as written | input that shows it | evidently intended | confidence | as-written member | corrected member |
|---|---|---|---|---|---|---|
| odin_plugin.py:736-739 | `resolve_fields` recurses into every struct a `using` names. It keeps no record of the structs already being resolved. | `A :: struct { using b: B }` and `B :: struct { using a: A }` | The cycle is cut, and `A` gets its own fields and `B`'s | not executed; high | `Resolve.CycleExhaustsFuel` | `Resolve.CycleResolves` |
| odin_plugin.py:166-197 | The parameter text is split at every depth-0 comma before the colon is looked for. A name without a colon of its own is dropped. | `proc(a, b: int)` | `a` and `b` both get type `int`, as the struct parser does for grouped fields | not executed; high | `Bodies.AsWrittenLosesGroupedName` | `Bodies.GroupedKeepsGroupedName` |
| odin_plugin.py:1072-1073 | An open `{` lowers the depth even at depth 0. The `(` of the call being typed then reads as nested and is passed over. | the text `f({.` while typing a `bit_set` argument | The open literal is taken as the current argument, and the scan still finds `f` at argument 0 | not executed; medium | `Calls.OpenBraceHidesCall` | `Calls.OpenBraceKeepsCall` |

The corrections are the definitions the rest of the model uses:

- `ExtractProcSignatureFixed` reads parameters with `ProcParams`. `Parser.DeclOf` uses it for one-line declarations and for headers over several lines, and `ExtractProcSignature` stays the code as written.
- `IndexResolveFields` uses `ResolveFields`. Wherever the code as written ends, the two agree (`Resolve.AsWrittenAgrees`).
- `FindEnclosingCallFixed` is the corrected scan.

One more behaviour is worth knowing. A parent struct's field replaces the
child's field of the same name (`Resolve.ParentFieldWins`). It is modelled
as written, because Odin itself rejects such duplicate fields.
