/** `parse_file` (odin_plugin.py:255-538): one pass over the lines of a
    file that records the package name, the imports and every top-level
    declaration. The loop's locals become a `ParseState`, and one iteration
    becomes `Step`. */
module Parser {
  import opened Wrappers
  import opened Text
  import opened Symbols
  import opened Bodies
  import opened Paths
  import opened Lines

  /** What the parser is in the middle of: nothing, or the body of a
      declaration that spans several lines (`collecting`). */
  datatype Mode = Idle | CollectStruct | CollectEnum | CollectProc | CollectUnion | SkipBlock

  /** The locals of the `parse_file` loop. */
  datatype ParseState = ParseState(
    packageName: string,
    symbols: seq<Symbol>,
    imports: seq<Import>,
    inBlock: bool,
    pendingPrivate: bool,
    mode: Mode,
    collectSym: Option<Symbol>,
    collectDepth: int,
    collectLines: seq<string>)

  const Initial := ParseState([], [], [], false, false, Idle, None, 0, [])

  /** The directory every symbol of a file is filed under. */
  function PkgDir(filepath: string): string {
    Normalize(Dirname(filepath))
  }

  /** The line being read: the file, its package directory, the 1-based
      line number and the raw line. */
  datatype LineCtx = LineCtx(file: string, pkgDir: string, lineNum: int, raw: string)

  /** One symbol more at the end of the list. */
  function Emit(st: ParseState, sym: Symbol): ParseState {
    st.(symbols := st.symbols + [sym])
  }

  // ---------------------------------------------------------------------
  // Collecting multi-line bodies (odin_plugin.py:313-343)
  // ---------------------------------------------------------------------

  /** One line inside a multi-line body. Struct and enum bodies close when
      the `{`/`}` depth drops to 0 (the closing line is not part of the
      body); a procedure header closes when the `(`/`)` depth does (its
      closing line is part of the header); union bodies and the blocks of
      multi-line variables are skipped until their braces close. */
  function Collect(st: ParseState, text: string): ParseState {
    match st.collectSym
    case None => st.(mode := Idle)
    case Some(sym) =>
      match st.mode
      case CollectStruct => StructLine(st, sym, text)
      case CollectEnum => EnumLine(st, sym, text)
      case CollectProc => ProcLine(st, sym, text)
      case _ => SkippedLine(st, sym, text)
  }

  /** A line of a multi-line struct body. */
  function StructLine(st: ParseState, sym: Symbol, text: string): ParseState {
    var d := st.collectDepth + NetBraces(text);
    if d <= 0 then
      var body := StructFields(st.collectLines);
      Emit(st, sym.(fields := body.fields, usingTypes := body.usingTypes,
                    signature := sym.name + " :: struct")).(mode := Idle, collectDepth := d)
    else st.(collectDepth := d, collectLines := st.collectLines + [text])
  }

  /** A line of a multi-line enum body. */
  function EnumLine(st: ParseState, sym: Symbol, text: string): ParseState {
    var d := st.collectDepth + NetBraces(text);
    if d <= 0 then
      Emit(st, sym.(variants := EnumVariants(st.collectLines))).(mode := Idle, collectDepth := d)
    else st.(collectDepth := d, collectLines := st.collectLines + [text])
  }

  /** A line of a multi-line procedure header. */
  function ProcLine(st: ParseState, sym: Symbol, text: string): ParseState {
    var lines := st.collectLines + [text];
    var d := st.collectDepth + NetParens(text);
    if d <= 0 then
      var ps := ExtractProcSignatureFixed(Join(lines, " "));
      Emit(st, sym.(signature := ps.signature, params := ps.params, returnType := ps.returnType))
        .(mode := Idle, collectDepth := d, collectLines := lines)
    else st.(collectDepth := d, collectLines := lines)
  }

  /** A line of a union body or of a multi-line variable's value. */
  function SkippedLine(st: ParseState, sym: Symbol, text: string): ParseState {
    var d := st.collectDepth + NetBraces(text);
    if d <= 0 then Emit(st, sym).(mode := Idle, collectDepth := d)
    else st.(collectDepth := d)
  }

  // ---------------------------------------------------------------------
  // Declarations (odin_plugin.py:375-491)
  // ---------------------------------------------------------------------

  /** What a declaration line leaves behind: a finished symbol, or a
      symbol whose body continues on the next lines (`lines` is `None` when
      the collected lines are left as they were). */
  datatype Decl =
    | Done(sym: Symbol)
    | Open(mode: Mode, sym: Symbol, depth: int, lines: Option<seq<string>>)

  /** A symbol made for the line `ctx`, named `name`. */
  predicate MadeFor(sym: Symbol, ctx: LineCtx, name: string, isPrivate: bool) {
    && sym.name == name && sym.file == ctx.file && sym.packageDir == ctx.pkgDir
    && sym.line == ctx.lineNum && sym.isPrivate == isPrivate
  }

  /** A `name :: rest` line. The kind is decided by the first pattern `rest`
      matches, in the order procedure group, procedure, struct, enum,
      union, bit set, distinct type; `#config(...)` and every other value
      become constants. `text` is the whole line without its attribute. A
      body that does not close on this line opens a multi-line collection. */
  function DeclOf(ctx: LineCtx, packageName: string, text: string, h: Head, isPrivate: bool): (d: Decl)
    ensures MadeFor(d.sym, ctx, h.name, isPrivate)
    ensures d.Open? ==> d.mode != Idle && d.depth > 0
    // a procedure group is always finished on its line
    ensures ProcGroupHead(h.rest) ==>
      d.Done? && d.sym.kind == ProcGroup && d.sym.signature == h.name + " :: " + h.rest
    // a procedure stays open while its parentheses do; a finished one has
    // the signature, parameters and return type read from the line
    ensures !ProcGroupHead(h.rest) && ProcHead(h.rest) ==>
      && d.sym.kind == Proc
      && (d.Open? <==> NetParens(h.rest) > 0)
      && (d.Open? ==> d.mode == CollectProc && d.lines == Some([text]) && d.depth == NetParens(h.rest))
      && (d.Done? ==>
            var ps := ExtractProcSignatureFixed(text);
            d.sym.signature == ps.signature && d.sym.params == ps.params && d.sym.returnType == ps.returnType)
    // a struct closed on its line has the fields of its one-line body
    ensures !ProcGroupHead(h.rest) && !ProcHead(h.rest) && StructHead(h.rest) ==>
      && d.sym.kind == Struct
      && (d.Open? <==> NetBraces(h.rest) > 0)
      && (d.Open? ==> d.mode == CollectStruct && d.lines == Some([]) && d.depth == NetBraces(h.rest))
      && (d.Done? && BraceBody(h.rest).Some? ==>
            && d.sym.fields == StructFields([BraceBody(h.rest).value]).fields
            && d.sym.usingTypes == StructFields([BraceBody(h.rest).value]).usingTypes)
    // an enum closed on its line has the variants of its one-line body
    ensures !ProcGroupHead(h.rest) && !ProcHead(h.rest) && !StructHead(h.rest) && EnumHead(h.rest) ==>
      && d.sym.kind == Enum
      && (d.Open? <==> NetBraces(h.rest) > 0)
      && (d.Open? ==> d.mode == CollectEnum && d.lines == Some([]) && d.depth == NetBraces(h.rest))
      && (d.Done? && BraceBody(h.rest).Some? ==> d.sym.variants == EnumVariants([BraceBody(h.rest).value]))
    ensures !ProcGroupHead(h.rest) && !ProcHead(h.rest) && !StructHead(h.rest) && !EnumHead(h.rest)
            && UnionHead(h.rest) ==>
      d.sym.kind == Union && (d.Open? <==> NetBraces(h.rest) > 0) && (d.Open? ==> d.mode == CollectUnion)
    // every other value is finished on its line: a bit set over an enum,
    // a distinct type, or a constant
    ensures !ProcGroupHead(h.rest) && !ProcHead(h.rest) && !StructHead(h.rest) && !EnumHead(h.rest)
            && !UnionHead(h.rest) ==>
      && d.Done? && d.sym.signature == h.name + " :: " + h.rest
      && (BitSetEnum(h.rest).Some? ==> d.sym.kind == TypeKind && d.sym.underlyingEnum == BitSetEnum(h.rest).value)
      && (BitSetEnum(h.rest).None? ==>
            d.sym.underlyingEnum == [] && (d.sym.kind == TypeKind <==> StartsWith(h.rest, "distinct ")))
      && (BitSetEnum(h.rest).None? && !StartsWith(h.rest, "distinct ") ==> d.sym.kind == Const)
  {
    var name := h.name;
    var rest := h.rest;
    var col := Find(ctx.raw, name) + 1;
    var base := NewSymbol(name, Const, [], ctx.file, ctx.lineNum, col, ctx.pkgDir, packageName, isPrivate);
    if ProcGroupHead(rest) then
      Done(base.(kind := ProcGroup, signature := name + " :: " + rest))
    else if ProcHead(rest) then
      var sym := base.(kind := Proc);
      var d := NetParens(rest);
      if d <= 0 then
        var ps := ExtractProcSignatureFixed(text);
        Done(sym.(signature := ps.signature, params := ps.params, returnType := ps.returnType))
      else Open(CollectProc, sym, d, Some([text]))
    else if StructHead(rest) then
      var sym := base.(kind := Struct);
      var d := NetBraces(rest);
      if d <= 0 then
        var body := match BraceBody(rest)
                    case None => StructBody(map[], [])
                    case Some(b) => StructFields([b]);
        Done(sym.(fields := body.fields, usingTypes := body.usingTypes, signature := name + " :: struct"))
      else Open(CollectStruct, sym, d, Some([]))
    else if EnumHead(rest) then
      var brace := FindChar(rest, '{');
      var sym := base.(kind := Enum, signature := name + " :: " + Strip(if brace >= 0 then rest[..brace] else rest));
      var d := NetBraces(rest);
      if d <= 0 then
        match BraceBody(rest)
        case None => Done(sym)
        case Some(b) => Done(sym.(variants := EnumVariants([b])))
      else Open(CollectEnum, sym, d, Some([]))
    else if UnionHead(rest) then
      var sym := base.(kind := Union, signature := name + " :: union");
      var d := NetBraces(rest);
      if d <= 0 then Done(sym) else Open(CollectUnion, sym, d, None)
    else
      match BitSetEnum(rest)
      case Some(e) => Done(base.(kind := TypeKind, signature := name + " :: " + rest, underlyingEnum := e))
      case None =>
        if StartsWith(rest, "distinct ") then Done(base.(kind := TypeKind, signature := name + " :: " + rest))
        else Done(base.(signature := name + " :: " + rest))
  }

  /** A `name := value` line: a variable with no recorded column. A value
      whose braces stay open is skipped up to where they close. */
  function WalrusOf(ctx: LineCtx, packageName: string, h: Head, isPrivate: bool): (d: Decl)
    ensures MadeFor(d.sym, ctx, h.name, isPrivate) && d.sym.kind == Var
    ensures d.Open? ==> d.mode == SkipBlock && d.depth > 0
  {
    var sym := NewSymbol(h.name, Var, h.name + " := ...", ctx.file, ctx.lineNum, 0, ctx.pkgDir,
                         packageName, isPrivate);
    var d := NetBraces(h.rest);
    if d > 0 then Open(SkipBlock, sym, d, None) else Done(sym)
  }

  /** The state after a declaration. */
  function Apply(st: ParseState, d: Decl): ParseState {
    match d
    case Done(sym) => Emit(st, sym)
    case Open(m, sym, depth, lines) =>
      st.(mode := m, collectSym := Some(sym), collectDepth := depth, collectLines := lines.GetOr(st.collectLines))
  }

  /** A line that is neither a package nor an import line, once its
      attribute (if any) is gone: a `::` declaration, a `:=` variable, or
      anything else, which cancels a pending `@private`. */
  function Declaration(ctx: LineCtx, st: ParseState, text: string): ParseState {
    match DeclHead(text)
    case Some(h) => Apply(st.(pendingPrivate := false), DeclOf(ctx, st.packageName, text, h, st.pendingPrivate))
    case None =>
      match WalrusHead(text)
      case Some(h) => Apply(st.(pendingPrivate := false), WalrusOf(ctx, st.packageName, h, st.pendingPrivate))
      case None => st.(pendingPrivate := false)
  }

  /** A line read while no body is being collected (odin_plugin.py:345-513). */
  function Dispatch(ctx: LineCtx, st: ParseState, text: string): ParseState {
    match PackageName(text)
    case Some(p) => st.(packageName := p)
    case None =>
      match ImportOf(text)
      case Some(imp) => st.(imports := st.imports + [imp])
      case None =>
        if StartsWith(text, "@") && AttributeEnd(text).Some? then
          var e := AttributeEnd(text).value;
          var st' := st.(pendingPrivate := st.pendingPrivate || Contains(text[..e], "private"));
          if e == |text| then st' else Declaration(ctx, st', text[e..])
        else Declaration(ctx, st, text)
  }

  /** One iteration of the `parse_file` loop. A step only ever appends
      symbols and imports. */
  function Step(ctx: LineCtx, st: ParseState): (r: ParseState)
    ensures st.symbols <= r.symbols
    ensures st.imports <= r.imports
  {
    var c := CleanLine(Strip(ctx.raw), st.inBlock);
    var st' := st.(inBlock := c.inBlock);
    DispatchAppends(ctx, st', c.text);
    CollectAppends(st', c.text);
    if c.skip then st'
    else if st'.mode == Idle then Dispatch(ctx, st', c.text)
    else Collect(st', c.text)
  }

  lemma DeclarationAppends(ctx: LineCtx, st: ParseState, text: string)
    ensures st.symbols <= Declaration(ctx, st, text).symbols
    ensures st.imports == Declaration(ctx, st, text).imports
  {
    var st' := st.(pendingPrivate := false);
    match DeclHead(text)
    case Some(h) => ApplyAppends(st', DeclOf(ctx, st.packageName, text, h, st.pendingPrivate));
    case None =>
      match WalrusHead(text)
      case Some(h) => ApplyAppends(st', WalrusOf(ctx, st.packageName, h, st.pendingPrivate));
      case None =>
  }

  lemma ApplyAppends(st: ParseState, d: Decl)
    ensures st.symbols <= Apply(st, d).symbols
    ensures st.imports == Apply(st, d).imports
  {
  }

  lemma DispatchAppends(ctx: LineCtx, st: ParseState, text: string)
    ensures st.symbols <= Dispatch(ctx, st, text).symbols
    ensures st.imports <= Dispatch(ctx, st, text).imports
  {
    if PackageName(text).None? && ImportOf(text).None? {
      if StartsWith(text, "@") && AttributeEnd(text).Some? {
        var e := AttributeEnd(text).value;
        var st' := st.(pendingPrivate := st.pendingPrivate || Contains(text[..e], "private"));
        if e != |text| {
          DeclarationAppends(ctx, st', text[e..]);
        }
      } else {
        DeclarationAppends(ctx, st, text);
      }
    }
  }

  lemma CollectAppends(st: ParseState, text: string)
    ensures st.symbols <= Collect(st, text).symbols
    ensures st.imports == Collect(st, text).imports
  {
    match st.collectSym
    case None =>
    case Some(sym) =>
      match st.mode
      case CollectStruct => StructLineAppends(st, sym, text);
      case CollectEnum => EnumLineAppends(st, sym, text);
      case CollectProc => ProcLineAppends(st, sym, text);
      case _ => SkippedLineAppends(st, sym, text);
  }

  lemma StructLineAppends(st: ParseState, sym: Symbol, text: string)
    ensures st.symbols <= StructLine(st, sym, text).symbols
    ensures st.imports == StructLine(st, sym, text).imports
  {
  }

  lemma EnumLineAppends(st: ParseState, sym: Symbol, text: string)
    ensures st.symbols <= EnumLine(st, sym, text).symbols
    ensures st.imports == EnumLine(st, sym, text).imports
  {
  }

  lemma SkippedLineAppends(st: ParseState, sym: Symbol, text: string)
    ensures st.symbols <= SkippedLine(st, sym, text).symbols
    ensures st.imports == SkippedLine(st, sym, text).imports
  {
  }

  lemma ProcLineAppends(st: ParseState, sym: Symbol, text: string)
    ensures st.symbols <= ProcLine(st, sym, text).symbols
    ensures st.imports == ProcLine(st, sym, text).imports
  {
  }

  /** The loop over the lines, numbered from `first`. */
  function Run(file: string, pkgDir: string, st: ParseState, lines: seq<string>, first: int): (r: ParseState)
    ensures 1 <= first && Good(st, file, pkgDir, first - 1) ==>
      Good(r, file, pkgDir, first - 1 + |lines|) && st.symbols <= r.symbols
    decreases |lines|
  {
    if lines == [] then st
    else
      var ctx := LineCtx(file, pkgDir, first, lines[0]);
      var next := Step(ctx, st);
      StepKeepsIf(ctx, st);
      Run(file, pkgDir, next, lines[1..], first + 1)
  }

  /** What `parse_file` returns. */
  datatype ParsedFile = ParsedFile(packageName: string, symbols: seq<Symbol>, imports: seq<Import>)

  // ---------------------------------------------------------------------
  // What every step keeps
  // ---------------------------------------------------------------------

  /** A symbol as the parser files it: from this file, under its package
      directory, with a name and a line number within the lines read. */
  predicate Filed(s: Symbol, file: string, pkgDir: string, maxLine: int) {
    s.file == file && s.packageDir == pkgDir && Ident(s.name) && 1 <= s.line <= maxLine
  }

  /** The parser state invariant: every symbol (recorded or being
      collected) is filed, every import is unresolved, and a body is only
      being collected for a symbol and at a positive depth. */
  predicate Good(st: ParseState, file: string, pkgDir: string, maxLine: int) {
    && AllFiled(st.symbols, file, pkgDir, maxLine)
    && (st.collectSym.Some? ==> Filed(st.collectSym.value, file, pkgDir, maxLine))
    && AllUnresolved(st.imports)
    && (st.mode != Idle ==> st.collectSym.Some? && st.collectDepth > 0)
  }

  predicate AllFiled(syms: seq<Symbol>, file: string, pkgDir: string, maxLine: int) {
    forall i :: 0 <= i < |syms| ==> Filed(syms[i], file, pkgDir, maxLine)
  }

  predicate AllUnresolved(imports: seq<Import>) {
    forall i :: 0 <= i < |imports| ==> imports[i].resolvedDir == []
  }

  lemma GoodLater(st: ParseState, file: string, pkgDir: string, n: int, m: int)
    requires Good(st, file, pkgDir, n) && n <= m
    ensures Good(st, file, pkgDir, m)
  {
  }

  /** What closing or continuing a multi-line body keeps. */
  predicate Continues(st: ParseState, r: ParseState, file: string, pkgDir: string, n: int) {
    && Good(r, file, pkgDir, n)
    && st.symbols <= r.symbols
    && st.imports == r.imports
    && st.packageName == r.packageName
  }

  lemma CollectKeeps(st: ParseState, text: string, file: string, pkgDir: string, n: int)
    requires Good(st, file, pkgDir, n) && st.mode != Idle
    ensures Continues(st, Collect(st, text), file, pkgDir, n)
  {
    var sym := st.collectSym.value;
    match st.mode
    case CollectStruct => StructLineKeeps(st, sym, text, file, pkgDir, n);
    case CollectEnum => EnumLineKeeps(st, sym, text, file, pkgDir, n);
    case CollectProc => ProcLineKeeps(st, sym, text, file, pkgDir, n);
    case _ => SkippedLineKeeps(st, sym, text, file, pkgDir, n);
  }

  lemma StructLineKeeps(st: ParseState, sym: Symbol, text: string, file: string, pkgDir: string, n: int)
    requires Good(st, file, pkgDir, n) && st.mode != Idle && st.collectSym == Some(sym)
    ensures Continues(st, StructLine(st, sym, text), file, pkgDir, n)
  {
  }

  lemma EnumLineKeeps(st: ParseState, sym: Symbol, text: string, file: string, pkgDir: string, n: int)
    requires Good(st, file, pkgDir, n) && st.mode != Idle && st.collectSym == Some(sym)
    ensures Continues(st, EnumLine(st, sym, text), file, pkgDir, n)
  {
  }

  lemma ProcLineKeeps(st: ParseState, sym: Symbol, text: string, file: string, pkgDir: string, n: int)
    requires Good(st, file, pkgDir, n) && st.mode != Idle && st.collectSym == Some(sym)
    ensures Continues(st, ProcLine(st, sym, text), file, pkgDir, n)
  {
    var lines := st.collectLines + [text];
    if st.collectDepth + NetParens(text) <= 0 {
      var ps := ExtractProcSignatureFixed(Join(lines, " "));
      var done := sym.(signature := ps.signature, params := ps.params, returnType := ps.returnType);
      assert Filed(done, file, pkgDir, n);
      assert ProcLine(st, sym, text).symbols == st.symbols + [done];
    }
  }

  lemma SkippedLineKeeps(st: ParseState, sym: Symbol, text: string, file: string, pkgDir: string, n: int)
    requires Good(st, file, pkgDir, n) && st.mode != Idle && st.collectSym == Some(sym)
    ensures Continues(st, SkippedLine(st, sym, text), file, pkgDir, n)
  {
  }

  lemma ApplyKeeps(ctx: LineCtx, st: ParseState, d: Decl, isPrivate: bool)
    requires Good(st, ctx.file, ctx.pkgDir, ctx.lineNum) && 1 <= ctx.lineNum
    requires Ident(d.sym.name) && MadeFor(d.sym, ctx, d.sym.name, isPrivate)
    requires d.Open? ==> d.mode != Idle && d.depth > 0
    ensures Good(Apply(st, d), ctx.file, ctx.pkgDir, ctx.lineNum)
    ensures st.symbols <= Apply(st, d).symbols
    ensures st.imports == Apply(st, d).imports
  {
  }

  lemma DeclarationKeeps(ctx: LineCtx, st: ParseState, text: string)
    requires Good(st, ctx.file, ctx.pkgDir, ctx.lineNum) && 1 <= ctx.lineNum
    ensures Good(Declaration(ctx, st, text), ctx.file, ctx.pkgDir, ctx.lineNum)
    ensures st.symbols <= Declaration(ctx, st, text).symbols
    ensures st.imports == Declaration(ctx, st, text).imports
  {
    var st' := st.(pendingPrivate := false);
    match DeclHead(text)
    case Some(h) => ApplyKeeps(ctx, st', DeclOf(ctx, st.packageName, text, h, st.pendingPrivate), st.pendingPrivate);
    case None =>
      match WalrusHead(text)
      case Some(h) => ApplyKeeps(ctx, st', WalrusOf(ctx, st.packageName, h, st.pendingPrivate), st.pendingPrivate);
      case None =>
  }

  lemma DispatchKeeps(ctx: LineCtx, st: ParseState, text: string)
    requires Good(st, ctx.file, ctx.pkgDir, ctx.lineNum) && st.mode == Idle && 1 <= ctx.lineNum
    ensures Good(Dispatch(ctx, st, text), ctx.file, ctx.pkgDir, ctx.lineNum)
    ensures st.symbols <= Dispatch(ctx, st, text).symbols
  {
    if PackageName(text).None? && ImportOf(text).None? {
      if StartsWith(text, "@") && AttributeEnd(text).Some? {
        var e := AttributeEnd(text).value;
        var st' := st.(pendingPrivate := st.pendingPrivate || Contains(text[..e], "private"));
        if e != |text| {
          DeclarationKeeps(ctx, st', text[e..]);
        }
      } else {
        DeclarationKeeps(ctx, st, text);
      }
    } else if PackageName(text).None? {
      ImportOfUnresolved(text);
    }
  }

  lemma ImportOfUnresolved(text: string)
    ensures ImportOf(text).Some? ==> ImportOf(text).value.resolvedDir == []
  {
  }

  /** One step keeps the invariant and never drops a recorded symbol. */
  lemma StepKeepsIf(ctx: LineCtx, st: ParseState)
    ensures Good(st, ctx.file, ctx.pkgDir, ctx.lineNum - 1) && 1 <= ctx.lineNum ==>
      Good(Step(ctx, st), ctx.file, ctx.pkgDir, ctx.lineNum) && st.symbols <= Step(ctx, st).symbols
  {
    if Good(st, ctx.file, ctx.pkgDir, ctx.lineNum - 1) && 1 <= ctx.lineNum {
      GoodLater(st, ctx.file, ctx.pkgDir, ctx.lineNum - 1, ctx.lineNum);
      StepKeeps(ctx, st);
    }
  }

  lemma StepKeeps(ctx: LineCtx, st: ParseState)
    requires Good(st, ctx.file, ctx.pkgDir, ctx.lineNum) && 1 <= ctx.lineNum
    ensures Good(Step(ctx, st), ctx.file, ctx.pkgDir, ctx.lineNum)
    ensures st.symbols <= Step(ctx, st).symbols
  {
    var c := CleanLine(Strip(ctx.raw), st.inBlock);
    var st' := st.(inBlock := c.inBlock);
    if !c.skip {
      if st'.mode == Idle {
        DispatchKeeps(ctx, st', c.text);
      } else {
        CollectKeeps(st', c.text, ctx.file, ctx.pkgDir, ctx.lineNum);
      }
    }
  }

  /** `parse_file(filepath, content)`. `content` is the text of the file,
      or `None` when it could not be read. Every symbol comes from this
      file, is filed under the normalised directory of its path, has a
      word for a name and the number of a line of the file; no import is
      resolved yet. */
  function ParseFile(filepath: string, content: Option<string>): (r: ParsedFile)
    ensures AllFiled(r.symbols, filepath, PkgDir(filepath), |SplitLines(content.GetOr([]))|)
    ensures AllUnresolved(r.imports)
  {
    match content
    case None => ParsedFile([], [], [])
    case Some(text) => ParseText(filepath, text)
  }

  /** `parse_file` on the text of a readable file. */
  function ParseText(filepath: string, text: string): (r: ParsedFile)
    ensures AllFiled(r.symbols, filepath, PkgDir(filepath), |SplitLines(text)|)
    ensures AllUnresolved(r.imports)
  {
    var lines := SplitLines(text);
    var pkgDir := PkgDir(filepath);
    assert Good(Initial, filepath, pkgDir, 0);
    var st := Run(filepath, pkgDir, Initial, lines, 1);
    ParsedFile(st.packageName, st.symbols, st.imports)
  }

  // ---------------------------------------------------------------------
  // Properties of single lines
  // ---------------------------------------------------------------------

  /** A file that cannot be read parses as an empty one. */
  lemma UnreadableIsEmpty(filepath: string)
    ensures ParseFile(filepath, None) == ParseFile(filepath, Some([]))
    ensures ParseFile(filepath, None) == ParsedFile([], [], [])
  {
    assert SplitLines([]) == [];
  }

  // Inside a block comment, a line without the comment closer changes nothing.
  lemma InsideBlockComment(ctx: LineCtx, st: ParseState)
    requires st.inBlock && !Contains(Strip(ctx.raw), "*/")
    ensures Step(ctx, st) == st
  {
  }

  /** The symbol a step introduced: the one appended, or else the one it
      started collecting. */
  function NewlyDeclared(before: ParseState, after: ParseState): Option<Symbol> {
    if |after.symbols| > |before.symbols| then Some(after.symbols[|after.symbols| - 1])
    else if before.mode == Idle && after.mode != Idle then after.collectSym
    else None
  }

  /** A `name :: ...` line read while idle declares `name`, takes a pending
      `@private` for itself and clears it for the lines after. */
  lemma PrivateAppliesToNextDeclaration(ctx: LineCtx, st: ParseState, text: string)
    requires st.mode == Idle
    requires DeclHead(text).Some?
    ensures Declaration(ctx, st, text).pendingPrivate == false
    ensures NewlyDeclared(st, Declaration(ctx, st, text)).Some?
    ensures NewlyDeclared(st, Declaration(ctx, st, text)).value.isPrivate == st.pendingPrivate
    ensures NewlyDeclared(st, Declaration(ctx, st, text)).value.name == DeclHead(text).value.name
  {
    var h := DeclHead(text).value;
    var st' := st.(pendingPrivate := false);
    var d := DeclOf(ctx, st.packageName, text, h, st.pendingPrivate);
    ApplyDeclares(st', d);
    assert Declaration(ctx, st, text) == Apply(st', d);
  }

  /** Applying a declaration to an idle state introduces its symbol. */
  lemma ApplyDeclares(st: ParseState, d: Decl)
    requires st.mode == Idle && (d.Open? ==> d.mode != Idle)
    ensures NewlyDeclared(st, Apply(st, d)) == Some(d.sym)
    ensures Apply(st, d).pendingPrivate == st.pendingPrivate
  {
  }

  /** A line that declares nothing cancels a pending `@private`. */
  lemma OtherLineCancelsPrivate(ctx: LineCtx, st: ParseState, text: string)
    requires DeclHead(text).None? && WalrusHead(text).None?
    ensures Declaration(ctx, st, text) == st.(pendingPrivate := false)
  {
  }

  /** An attribute on a line of its own is remembered for the next line;
      `@private` (or any attribute text containing `private`) sets it. */
  lemma AttributeLineRemembered(ctx: LineCtx, st: ParseState, text: string)
    requires PackageName(text).None? && ImportOf(text).None?
    requires StartsWith(text, "@") && AttributeEnd(text) == Some(|text|)
    ensures Dispatch(ctx, st, text) == st.(pendingPrivate := st.pendingPrivate || Contains(text, "private"))
  {
    assert text[..|text|] == text;
  }

  /** A `package name` line read while no body is collected sets the
      file's package name, and nothing else but the comment state changes;
      in particular a pending `@private` survives it (odin_plugin.py:366-370). */
  lemma PackageLineSets(ctx: LineCtx, st: ParseState, p: string)
    requires st.mode == Idle
    requires var c := CleanLine(Strip(ctx.raw), st.inBlock); !c.skip && PackageName(c.text) == Some(p)
    ensures Step(ctx, st) == st.(inBlock := CleanLine(Strip(ctx.raw), st.inBlock).inBlock, packageName := p)
  {
  }

  /** An `import` line read while no body is collected appends its import,
      after the earlier ones, and changes nothing else but the comment state
      (odin_plugin.py:372-383). */
  lemma ImportLineAppends(ctx: LineCtx, st: ParseState, imp: Import)
    requires st.mode == Idle
    requires var c := CleanLine(Strip(ctx.raw), st.inBlock);
      !c.skip && PackageName(c.text).None? && ImportOf(c.text) == Some(imp)
    ensures Step(ctx, st)
         == st.(inBlock := CleanLine(Strip(ctx.raw), st.inBlock).inBlock, imports := st.imports + [imp])
  {
  }

  // ---------------------------------------------------------------------
  // A file of one declaration
  // ---------------------------------------------------------------------

  /** A file whose only line is a `name :: rest` declaration that closes on
      that line, with no comment and no blank around it, parses to exactly
      the symbol `DeclOf` makes for that line. */
  lemma OneLineFile(filepath: string, line: string)
    requires DeclHead(line).Some?
    requires !IsSpace(line[|line| - 1])
    requires forall i :: 0 <= i < |line| ==> !IsLineBreak(line[i])
    requires !Contains(line, "/*") && !Contains(line, "//")
    requires DeclOf(LineCtx(filepath, PkgDir(filepath), 1, line), [], line, DeclHead(line).value, false).Done?
    ensures ParseText(filepath, line).symbols
         == [DeclOf(LineCtx(filepath, PkgDir(filepath), 1, line), [], line, DeclHead(line).value, false).sym]
  {
    var ctx := LineCtx(filepath, PkgDir(filepath), 1, line);
    SingleLine(line);
    RunOneLine(filepath, line);
    StepOnDeclLine(ctx, line);
  }

  /** For instance, the file `X :: 5` declares one constant `X`, on line
      1 and under the file's directory. */
  lemma OneLineConstant(filepath: string, line: string)
    requires line == "X :: 5"
    ensures var syms := ParseText(filepath, line).symbols;
      && |syms| == 1 && syms[0].name == "X" && syms[0].kind == Const
      && syms[0].line == 1 && syms[0].packageDir == PkgDir(filepath)
  {
    var ctx := LineCtx(filepath, PkgDir(filepath), 1, line);
    ConstantLineMeets(ctx, line);
    OneLineFile(filepath, line);
    OnlySymbol(ParseText(filepath, line).symbols, DeclOf(ctx, [], line, DeclHead(line).value, false).sym, ctx, filepath);
  }

  /** The line `X :: 5` meets what `OneLineFile` asks of a line, and
      `DeclOf` makes a constant of it. */
  lemma ConstantLineMeets(ctx: LineCtx, line: string)
    requires line == "X :: 5" && ctx.raw == line && ctx.lineNum == 1
    ensures DeclHead(line).Some? && !IsSpace(line[|line| - 1])
    ensures forall i :: 0 <= i < |line| ==> !IsLineBreak(line[i])
    ensures !Contains(line, "/*") && !Contains(line, "//")
    ensures var d := DeclOf(ctx, [], line, DeclHead(line).value, false);
      d.Done? && d.sym.kind == Const && MadeFor(d.sym, ctx, "X", false)
  {
    ConstantHead(line);
    NoCommentIn(line);
    NoBreakIn(line);
    ConstantDecl(ctx, line, DeclHead(line).value);
  }

  lemma OnlySymbol(syms: seq<Symbol>, sym: Symbol, ctx: LineCtx, filepath: string)
    requires syms == [sym] && sym.kind == Const && MadeFor(sym, ctx, "X", false)
    requires ctx.lineNum == 1 && ctx.pkgDir == PkgDir(filepath)
    ensures |syms| == 1 && syms[0].name == "X" && syms[0].kind == Const
    ensures syms[0].line == 1 && syms[0].packageDir == PkgDir(filepath)
  {
  }

  lemma NoBreakIn(line: string)
    requires line == "X :: 5"
    ensures !IsSpace(line[|line| - 1])
    ensures forall i :: 0 <= i < |line| ==> !IsLineBreak(line[i])
  {
  }

  lemma ConstantHead(line: string)
    requires line == "X :: 5"
    ensures DeclHead(line) == Some(Head("X", "5"))
  {
    assert IsWordChar(line[0]) && !IsWordChar(line[1]);
    assert SkipWord(line, 0) == 1 && line[..1] == "X";
    assert SkipSpaces(line, 1) == 2 && line[2..4] == "::";
    assert SkipSpaces(line, 4) == 5 && line[5..] == "5";
    StripNonBlankEnds(line[5..]);
  }

  lemma ConstantDecl(ctx: LineCtx, line: string, h: Head)
    requires h == Head("X", "5")
    ensures var d := DeclOf(ctx, [], line, h, false);
      d.Done? && d.sym.kind == Const && MadeFor(d.sym, ctx, "X", false)
  {
    var rest := h.rest;
    assert !StartsWith(rest, "proc") && !StartsWith(rest, "struct") && !StartsWith(rest, "enum");
    assert !StartsWith(rest, "union") && !StartsWith(rest, "distinct");
    assert !OccursAt(rest, "proc", 0) && !OccursAt(rest, "bit_set[", 0);
  }

  lemma NoCommentIn(line: string)
    requires '/' !in line
    ensures !Contains(line, "/*") && !Contains(line, "//")
  {
    forall i ensures !OccursAt(line, "/*", i) && !OccursAt(line, "//", i) {
      if 0 <= i && i + 2 <= |line| {
        assert line[i] in line;
      }
    }
  }

  /** The loop over a one-line file is one step from the initial state. */
  lemma RunOneLine(filepath: string, line: string)
    requires line != [] && forall i :: 0 <= i < |line| ==> !IsLineBreak(line[i])
    ensures ParseText(filepath, line).symbols == Step(LineCtx(filepath, PkgDir(filepath), 1, line), Initial).symbols
  {
    SingleLine(line);
    var ctx := LineCtx(filepath, PkgDir(filepath), 1, line);
    assert Run(filepath, PkgDir(filepath), Initial, [line], 1)
        == Run(filepath, PkgDir(filepath), Step(ctx, Initial), [], 2);
  }

  /** From the initial state, a clean declaration line is handed to
      `DeclOf` and its result applied. */
  lemma StepOnDeclLine(ctx: LineCtx, line: string)
    requires ctx.raw == line && DeclHead(line).Some?
    requires !IsSpace(line[|line| - 1])
    requires !Contains(line, "/*") && !Contains(line, "//")
    ensures Step(ctx, Initial) == Apply(Initial, DeclOf(ctx, [], line, DeclHead(line).value, false))
  {
    CleanDeclLine(line);
    DispatchDeclLine(ctx, Initial, line);
  }

  /** Comment handling leaves such a line as it is. */
  lemma CleanDeclLine(line: string)
    requires DeclHead(line).Some? && !IsSpace(line[|line| - 1])
    requires !Contains(line, "/*") && !Contains(line, "//")
    ensures CleanLine(Strip(line), false) == Cleaned(line, false, false)
  {
    DeclLineShape(line);
    assert Strip(line) == line;
  }

  /** Such a line read while idle goes straight to `Declaration`. */
  lemma DispatchDeclLine(ctx: LineCtx, st: ParseState, line: string)
    requires DeclHead(line).Some?
    ensures Dispatch(ctx, st, line) == Declaration(ctx, st, line)
  {
    DeclLineShape(line);
  }

  /** A declaration line is neither a `package` nor an `import` line, and
      carries no attribute. */
  lemma DeclLineShape(line: string)
    requires SkipWord(line, 0) > 0 && OccursAt(line, "::", SkipSpaces(line, SkipWord(line, 0)))
    ensures PackageName(line).None? && ImportOf(line).None? && !StartsWith(line, "@")
    ensures line != [] && !IsSpace(line[0])
  {
    assert IsWordChar(line[0]);
    DeclLineNotPackage(line);
    DeclLineNotImport(line);
  }

  lemma DeclLineNotPackage(line: string)
    requires OccursAt(line, "::", SkipSpaces(line, SkipWord(line, 0)))
    ensures PackageName(line).None?
  {
    if StartsWith(line, "package") && SkipSpaces(line, 7) > 7 {
      assert line[..7] == "package";
      forall k | 0 <= k < 7 ensures IsWordChar(line[k]) {
        assert line[k] == "package"[k];
      }
      KeywordHead(line, 7);
    }
  }

  lemma DeclLineNotImport(line: string)
    requires OccursAt(line, "::", SkipSpaces(line, SkipWord(line, 0)))
    ensures ImportOf(line).None?
  {
    if StartsWith(line, "import") && SkipSpaces(line, 6) > 6 {
      assert line[..6] == "import";
      forall k | 0 <= k < 6 ensures IsWordChar(line[k]) {
        assert line[k] == "import"[k];
      }
      KeywordHead(line, 6);
    }
  }

  /** When a declaration line begins with a keyword of `n` word characters
      followed by a blank, the `::` comes right after the blanks. */
  lemma KeywordHead(line: string, n: nat)
    requires OccursAt(line, "::", SkipSpaces(line, SkipWord(line, 0))) && n < |line|
    requires forall k :: 0 <= k < n ==> IsWordChar(line[k])
    requires IsSpace(line[n])
    ensures SkipSpaces(line, n) < |line| && line[SkipSpaces(line, n)] == ':'
    ensures SkipWord(line, SkipSpaces(line, n)) == SkipSpaces(line, n)
  {
    SkipWordStops(line, 0, n);
    ColonsAfterName(line, SkipSpaces(line, n));
  }

  /** The `::` of a declaration line follows the name and its blanks. */
  lemma ColonsAfterName(line: string, i: nat)
    requires OccursAt(line, "::", i)
    ensures i + 2 <= |line| && line[i] == ':' && line[i + 1] == ':'
  {
    var c := line[i..i + 2];
    assert line[i] == c[0] && line[i + 1] == c[1];
  }

  /** The word run from `from` ends at the first non-word character. */
  lemma {:induction false} SkipWordStops(s: string, from: nat, n: nat)
    requires from <= n < |s| && !IsWordChar(s[n])
    requires forall k :: from <= k < n ==> IsWordChar(s[k])
    ensures SkipWord(s, from) == n
    decreases n - from
  {
    if from < n {
      SkipWordStops(s, from + 1, n);
    }
  }

  // ---------------------------------------------------------------------
  // Declarations over several lines (odin_plugin.py:313-343)
  // ---------------------------------------------------------------------

  /** The loop of `Run` with the step made a parameter, so that what a
      run of lines does can be argued from what the step does to each
      kind of line. */
  function RunWith(step: (LineCtx, ParseState) -> ParseState, file: string, pkgDir: string, st: ParseState,
                   lines: seq<string>, first: int): ParseState
    decreases |lines|
  {
    if lines == [] then st
    else RunWith(step, file, pkgDir, step(LineCtx(file, pkgDir, first, lines[0]), st), lines[1..], first + 1)
  }

  lemma {:induction false} RunIsRunWith(file: string, pkgDir: string, st: ParseState, lines: seq<string>, first: int)
    ensures Run(file, pkgDir, st, lines, first) == RunWith(Step, file, pkgDir, st, lines, first)
    decreases |lines|
  {
    if lines != [] {
      RunIsRunWith(file, pkgDir, Step(LineCtx(file, pkgDir, first, lines[0]), st), lines[1..], first + 1);
    }
  }

  /** Reading `a + b` is reading `a`, then `b` from where `a` stopped. */
  lemma {:induction false} RunWithAppend(step: (LineCtx, ParseState) -> ParseState, file: string, pkgDir: string,
                                         st: ParseState, a: seq<string>, b: seq<string>, first: int)
    ensures RunWith(step, file, pkgDir, st, a + b, first)
         == RunWith(step, file, pkgDir, RunWith(step, file, pkgDir, st, a, first), b, first + |a|)
    decreases |a|
  {
    if a == [] {
      assert a + b == b;
    } else {
      assert (a + b)[0] == a[0] && (a + b)[1..] == a[1..] + b;
      RunWithAppend(step, file, pkgDir, step(LineCtx(file, pkgDir, first, a[0]), st), a[1..], b, first + 1);
    }
  }

  /** A line the comment handling passes on whole: not blank once
      stripped, and opening neither a block nor a line comment. */
  predicate Uncommented(raw: string) {
    Strip(raw) != [] && !Contains(Strip(raw), "/*") && !Contains(Strip(raw), "//")
  }

  /** The depth change a line brings to a body being collected:
      parentheses in a procedure header, braces otherwise. */
  function Net(mode: Mode, text: string): int {
    if mode == CollectProc then NetParens(text) else NetBraces(text)
  }

  /** The depth change of several raw lines. */
  function NetOf(mode: Mode, lines: seq<string>): int
    decreases |lines|
  {
    if lines == [] then 0 else Net(mode, Strip(lines[0])) + NetOf(mode, lines[1..])
  }

  /** Starting from `depth`, the body is still open after each of `lines`. */
  predicate StaysOpen(mode: Mode, depth: int, lines: seq<string>) {
    forall k :: 0 < k <= |lines| ==> depth + NetOf(mode, lines[..k]) > 0
  }

  /** A mode that keeps the lines of a body. */
  predicate Collecting(mode: Mode) {
    mode == CollectStruct || mode == CollectEnum || mode == CollectProc
  }

  /** An uncommented line, outside a block comment, of a body it leaves
      open. */
  predicate OpenBodyLine(ctx: LineCtx, s: ParseState) {
    && Collecting(s.mode) && s.collectSym.Some? && !s.inBlock && Uncommented(ctx.raw)
    && s.collectDepth + Net(s.mode, Strip(ctx.raw)) > 0
  }

  /** A step that keeps such a line, stripped, and adds its depth change. */
  ghost predicate CollectsOpenBodies(step: (LineCtx, ParseState) -> ParseState) {
    forall ctx, s {:trigger step(ctx, s)} :: OpenBodyLine(ctx, s) ==>
      step(ctx, s) == s.(collectDepth := s.collectDepth + Net(s.mode, Strip(ctx.raw)),
                         collectLines := s.collectLines + [Strip(ctx.raw)])
  }

  /** An uncommented line outside a block comment is handed on stripped. */
  lemma UncommentedKept(raw: string)
    requires Uncommented(raw)
    ensures CleanLine(Strip(raw), false) == Cleaned(Strip(raw), false, false)
  {
  }

  /** The parser's step collects the lines of a body left open. */
  lemma StepCollectsOpenBodies()
    ensures CollectsOpenBodies(Step)
  {
    forall ctx, s | OpenBodyLine(ctx, s)
      ensures Step(ctx, s) == s.(collectDepth := s.collectDepth + Net(s.mode, Strip(ctx.raw)),
                                 collectLines := s.collectLines + [Strip(ctx.raw)])
    {
      UncommentedKept(ctx.raw);
      assert s.(inBlock := false) == s;
      CollectOpen(s, Strip(ctx.raw));
    }
  }

  /** A line that leaves a body open is kept, and its depth change added. */
  lemma CollectOpen(st: ParseState, text: string)
    requires Collecting(st.mode) && st.collectSym.Some? && st.collectDepth + Net(st.mode, text) > 0
    ensures Collect(st, text) == st.(collectDepth := st.collectDepth + Net(st.mode, text),
                                     collectLines := st.collectLines + [text])
  {
  }

  /** The first line of a body that stays open leaves it open, and so do
      the others from there. */
  lemma StaysOpenTail(m: Mode, depth: int, lines: seq<string>)
    requires lines != [] && StaysOpen(m, depth, lines)
    ensures depth + Net(m, Strip(lines[0])) > 0
    ensures StaysOpen(m, depth + Net(m, Strip(lines[0])), lines[1..])
  {
    assert lines[..1] == [lines[0]];
    assert NetOf(m, [lines[0]]) == Net(m, Strip(lines[0])) + NetOf(m, []);
    forall k | 0 < k <= |lines[1..]|
      ensures depth + Net(m, Strip(lines[0])) + NetOf(m, lines[1..][..k]) > 0
    {
      assert lines[..k + 1][0] == lines[0] && lines[..k + 1][1..] == lines[1..][..k];
    }
  }

  /** The lines of a body that stays open are collected, stripped, and
      their depth changes add up. */
  lemma {:induction false} CollectBody(step: (LineCtx, ParseState) -> ParseState, file: string, pkgDir: string,
                                       st: ParseState, lines: seq<string>, first: int)
    requires CollectsOpenBodies(step)
    requires Collecting(st.mode) && st.collectSym.Some? && !st.inBlock
    requires forall k :: 0 <= k < |lines| ==> Uncommented(lines[k])
    requires StaysOpen(st.mode, st.collectDepth, lines)
    ensures RunWith(step, file, pkgDir, st, lines, first)
         == st.(collectDepth := st.collectDepth + NetOf(st.mode, lines),
                collectLines := st.collectLines + StripAll(lines))
    decreases |lines|
  {
    if lines == [] {
      assert st.collectLines + [] == st.collectLines;
    } else {
      var ctx := LineCtx(file, pkgDir, first, lines[0]);
      StaysOpenTail(st.mode, st.collectDepth, lines);
      assert OpenBodyLine(ctx, st);
      var st1 := step(ctx, st);
      var r := RunWith(step, file, pkgDir, st1, lines[1..], first + 1);
      assert RunWith(step, file, pkgDir, st, lines, first) == r;
      CollectBody(step, file, pkgDir, st1, lines[1..], first + 1);
      CollectBodyStep(st, st1, r, Strip(lines[0]), NetOf(st.mode, lines[1..]), StripAll(lines[1..]));
      assert StripAll(lines) == [Strip(lines[0])] + StripAll(lines[1..]);
    }
  }

  /** One kept line, then the rest of the body. */
  lemma CollectBodyStep(st: ParseState, st1: ParseState, r: ParseState, text: string, net: int, rest: seq<string>)
    requires st1 == st.(collectDepth := st.collectDepth + Net(st.mode, text), collectLines := st.collectLines + [text])
    requires r == st1.(collectDepth := st1.collectDepth + net, collectLines := st1.collectLines + rest)
    ensures r == st.(collectDepth := st.collectDepth + (Net(st.mode, text) + net), collectLines := st.collectLines + ([text] + rest))
  {
    assert st1.collectLines + rest == st.collectLines + ([text] + rest);
  }

  /** A first line, a run of lines, then a last line: the run starts
      from where the first line left the state, and the last line is read
      from where the run stopped. */
  lemma ThreeParts(step: (LineCtx, ParseState) -> ParseState, file: string, pkgDir: string,
                   st: ParseState, s1: ParseState, s2: ParseState, head: string, body: seq<string>,
                   close: string, first: int)
    requires step(LineCtx(file, pkgDir, first, head), st) == s1
    requires RunWith(step, file, pkgDir, s1, body, first + 1) == s2
    ensures RunWith(step, file, pkgDir, st, [head] + body + [close], first)
         == step(LineCtx(file, pkgDir, first + 1 + |body|, close), s2)
  {
    RunWithAppend(step, file, pkgDir, st, [head] + body, [close], first);
    RunWithAppend(step, file, pkgDir, st, [head], body, first);
    assert RunWith(step, file, pkgDir, st, [head], first) == RunWith(step, file, pkgDir, s1, [], first + 1);
    assert RunWith(step, file, pkgDir, s2, [close], first + 1 + |body|)
        == RunWith(step, file, pkgDir, step(LineCtx(file, pkgDir, first + 1 + |body|, close), s2), [], first + 2 + |body|);
  }

  /** The parser's loop over the lines of a body that stays open keeps
      them, stripped, and adds up their depth changes. */
  lemma StepCollectBody(file: string, pkgDir: string, st: ParseState, lines: seq<string>, first: int)
    requires Collecting(st.mode) && st.collectSym.Some? && !st.inBlock
    requires forall k :: 0 <= k < |lines| ==> Uncommented(lines[k])
    requires StaysOpen(st.mode, st.collectDepth, lines)
    ensures RunWith(Step, file, pkgDir, st, lines, first)
         == st.(collectDepth := st.collectDepth + NetOf(st.mode, lines),
                collectLines := st.collectLines + StripAll(lines))
  {
    StepCollectsOpenBodies();
    CollectBody(Step, file, pkgDir, st, lines, first);
  }

  /** An uncommented declaration line read while idle is handed to
      `DeclOf`, and a pending `@private` goes to its symbol. */
  lemma IdleDeclStep(ctx: LineCtx, st: ParseState)
    requires st.mode == Idle && !st.inBlock && Uncommented(ctx.raw) && DeclHead(Strip(ctx.raw)).Some?
    ensures Step(ctx, st)
         == Apply(st.(pendingPrivate := false),
                  DeclOf(ctx, st.packageName, Strip(ctx.raw), DeclHead(Strip(ctx.raw)).value, st.pendingPrivate))
  {
    UncommentedKept(ctx.raw);
    assert st.(inBlock := false) == st;
    DispatchDeclLine(ctx, st, Strip(ctx.raw));
  }

  /** An uncommented line read while a body is collected goes to `Collect`. */
  lemma CollectingStep(ctx: LineCtx, st: ParseState)
    requires st.mode != Idle && !st.inBlock && Uncommented(ctx.raw)
    ensures Step(ctx, st) == Collect(st, Strip(ctx.raw))
  {
    UncommentedKept(ctx.raw);
    assert st.(inBlock := false) == st;
  }

  /** The symbol `DeclOf` makes for the declaration line `ctx` read in
      state `st`. */
  function HeadSym(ctx: LineCtx, st: ParseState): Symbol
    requires DeclHead(Strip(ctx.raw)).Some?
  {
    DeclOf(ctx, st.packageName, Strip(ctx.raw), DeclHead(Strip(ctx.raw)).value, st.pendingPrivate).sym
  }

  /** The state once a declaration line has opened a body, holding
      `lines` so far. */
  function Opened(st: ParseState, mode: Mode, sym: Symbol, depth: int, lines: seq<string>): ParseState {
    st.(pendingPrivate := false, mode := mode, collectSym := Some(sym), collectDepth := depth, collectLines := lines)
  }

  /** The state once the lines of `body` are kept, from a body opened
      with no lines. */
  function Kept(s1: ParseState, body: seq<string>): ParseState {
    s1.(collectDepth := s1.collectDepth + NetOf(s1.mode, body), collectLines := StripAll(body))
  }

  /** The state once the lines of `body` are kept, after those `s1`
      holds. */
  function Extended(s1: ParseState, body: seq<string>): ParseState {
    s1.(collectDepth := s1.collectDepth + NetOf(s1.mode, body), collectLines := s1.collectLines + StripAll(body))
  }

  /** The same as `StepCollectBody`, for a body whose collection starts
      with no lines. */
  lemma StepCollectFromEmpty(file: string, pkgDir: string, st: ParseState, lines: seq<string>, first: int)
    requires Collecting(st.mode) && st.collectSym.Some? && !st.inBlock && st.collectLines == []
    requires forall k :: 0 <= k < |lines| ==> Uncommented(lines[k])
    requires StaysOpen(st.mode, st.collectDepth, lines)
    ensures RunWith(Step, file, pkgDir, st, lines, first) == Kept(st, lines)
  {
    StepCollectBody(file, pkgDir, st, lines, first);
    OpenedThenKept(st, Kept(st, lines), lines, NetOf(st.mode, lines));
  }

  /** A body opened with no lines, then the lines of `body` kept. */
  lemma OpenedThenKept(s1: ParseState, s2: ParseState, body: seq<string>, net: int)
    requires s1.collectLines == []
    requires s2 == s1.(collectDepth := s1.collectDepth + net, collectLines := StripAll(body))
    ensures s2 == s1.(collectDepth := s1.collectDepth + net, collectLines := s1.collectLines + StripAll(body))
  {
    assert s1.collectLines + StripAll(body) == StripAll(body);
  }

  /** Up to its last line, a declaration over several lines: the
      declaration line opens a body, and the body's lines are kept. */
  lemma UpToLastLine(file: string, pkgDir: string, st: ParseState, s1: ParseState, head: string,
                     body: seq<string>, last: string, first: int)
    requires Step(LineCtx(file, pkgDir, first, head), st) == s1
    requires Collecting(s1.mode) && s1.collectSym.Some? && !s1.inBlock && s1.collectLines == []
    requires forall k :: 0 <= k < |body| ==> Uncommented(body[k])
    requires StaysOpen(s1.mode, s1.collectDepth, body)
    ensures Run(file, pkgDir, st, [head] + body + [last], first)
         == Step(LineCtx(file, pkgDir, first + 1 + |body|, last), Kept(s1, body))
  {
    StepCollectFromEmpty(file, pkgDir, s1, body, first + 1);
    ThreeParts(Step, file, pkgDir, st, s1, Kept(s1, body), head, body, last, first);
    RunIsRunWith(file, pkgDir, st, [head] + body + [last], first);
  }

  /** Up to its last line, a declaration whose first line is kept with
      its body, as a procedure header's is. */
  lemma UpToLastLineFrom(file: string, pkgDir: string, st: ParseState, s1: ParseState, head: string,
                         body: seq<string>, last: string, first: int)
    requires Step(LineCtx(file, pkgDir, first, head), st) == s1
    requires Collecting(s1.mode) && s1.collectSym.Some? && !s1.inBlock
    requires forall k :: 0 <= k < |body| ==> Uncommented(body[k])
    requires StaysOpen(s1.mode, s1.collectDepth, body)
    ensures Run(file, pkgDir, st, [head] + body + [last], first)
         == Step(LineCtx(file, pkgDir, first + 1 + |body|, last), Extended(s1, body))
  {
    StepCollectBody(file, pkgDir, s1, body, first + 1);
    ThreeParts(Step, file, pkgDir, st, s1, Extended(s1, body), head, body, last, first);
    RunIsRunWith(file, pkgDir, st, [head] + body + [last], first);
  }

  /** `after` is `before` with `sym` recorded at the end of the symbols
      and the parser idle again; the package name, the imports and the
      block-comment flag are as they were. */
  predicate Recorded(before: ParseState, after: ParseState, sym: Symbol) {
    && after.symbols == before.symbols + [sym] && after.mode == Idle && after.inBlock == before.inBlock
    && after.imports == before.imports && after.packageName == before.packageName
  }

  /** A declaration line read while idle, for which `DeclOf` opens a
      body, leaves the parser collecting it. */
  lemma HeadOpens(ctx: LineCtx, st: ParseState, mode: Mode, depth: int, lines: seq<string>)
    requires st.mode == Idle && !st.inBlock && Uncommented(ctx.raw) && DeclHead(Strip(ctx.raw)).Some?
    requires DeclOf(ctx, st.packageName, Strip(ctx.raw), DeclHead(Strip(ctx.raw)).value, st.pendingPrivate)
          == Open(mode, HeadSym(ctx, st), depth, Some(lines))
    ensures Step(ctx, st) == Opened(st, mode, HeadSym(ctx, st), depth, lines)
  {
    IdleDeclStep(ctx, st);
    ApplyOpen(st, mode, HeadSym(ctx, st), depth, lines);
  }

  lemma ApplyOpen(st: ParseState, mode: Mode, sym: Symbol, depth: int, lines: seq<string>)
    ensures Apply(st.(pendingPrivate := false), Open(mode, sym, depth, Some(lines))) == Opened(st, mode, sym, depth, lines)
  {
  }

  /** A `name :: struct {` line whose braces stay open. */
  predicate StructOpening(h: Head) {
    !ProcGroupHead(h.rest) && !ProcHead(h.rest) && StructHead(h.rest) && NetBraces(h.rest) > 0
  }

  /** Such a line read while idle starts collecting a struct body. */
  lemma StructHeadStep(ctx: LineCtx, st: ParseState)
    requires st.mode == Idle && !st.inBlock && Uncommented(ctx.raw) && DeclHead(Strip(ctx.raw)).Some?
    requires StructOpening(DeclHead(Strip(ctx.raw)).value)
    ensures Step(ctx, st) == Opened(st, CollectStruct, HeadSym(ctx, st), NetBraces(DeclHead(Strip(ctx.raw)).value.rest), [])
  {
    HeadOpens(ctx, st, CollectStruct, NetBraces(DeclHead(Strip(ctx.raw)).value.rest), []);
  }

  /** The line that closes a struct body records the struct, with the
      fields of the lines collected before it. */
  lemma StructCloseStep(ctx: LineCtx, st: ParseState)
    requires st.mode == CollectStruct && st.collectSym.Some? && !st.inBlock && Uncommented(ctx.raw)
    requires st.collectDepth + NetBraces(Strip(ctx.raw)) <= 0
    ensures var sym := st.collectSym.value;
      var fs := StructFields(st.collectLines);
      Recorded(st, Step(ctx, st), sym.(fields := fs.fields, usingTypes := fs.usingTypes, signature := sym.name + " :: struct"))
    ensures Step(ctx, st).pendingPrivate == st.pendingPrivate
  {
    CollectingStep(ctx, st);
    StructCloses(st, Strip(ctx.raw));
  }

  lemma StructCloses(st: ParseState, text: string)
    requires st.mode == CollectStruct && st.collectSym.Some? && st.collectDepth + NetBraces(text) <= 0
    ensures var sym := st.collectSym.value;
      var fs := StructFields(st.collectLines);
      Recorded(st, Collect(st, text),
               sym.(fields := fs.fields, usingTypes := fs.usingTypes, signature := sym.name + " :: struct"))
    ensures Collect(st, text).pendingPrivate == st.pendingPrivate
  {
  }

  /** A struct whose body opens on its declaration line, stays open over
      `body` and closes on `close`: the struct is recorded once, as `DeclOf`
      made it, with the fields of the body lines, and the parser is idle
      again. */
  lemma StructOverLines(file: string, pkgDir: string, st: ParseState, head: string, body: seq<string>,
                        close: string, first: int)
    requires st.mode == Idle && !st.inBlock
    requires Uncommented(head) && DeclHead(Strip(head)).Some? && StructOpening(DeclHead(Strip(head)).value)
    requires forall k :: 0 <= k < |body| ==> Uncommented(body[k])
    requires StaysOpen(CollectStruct, NetBraces(DeclHead(Strip(head)).value.rest), body)
    requires Uncommented(close)
    requires NetBraces(DeclHead(Strip(head)).value.rest) + NetOf(CollectStruct, body) + NetBraces(Strip(close)) <= 0
    ensures var h := DeclHead(Strip(head)).value;
      var sym := DeclOf(LineCtx(file, pkgDir, first, head), st.packageName, Strip(head), h, st.pendingPrivate).sym;
      var fs := StructFields(StripAll(body));
      var r := Run(file, pkgDir, st, [head] + body + [close], first);
      && r.symbols == st.symbols + [sym.(fields := fs.fields, usingTypes := fs.usingTypes, signature := h.name + " :: struct")]
      && r.mode == Idle && !r.pendingPrivate && !r.inBlock && r.imports == st.imports && r.packageName == st.packageName
  {
    var ctx := LineCtx(file, pkgDir, first, head);
    var s1 := Opened(st, CollectStruct, HeadSym(ctx, st), NetBraces(DeclHead(Strip(head)).value.rest), []);
    StructHeadStep(ctx, st);
    UpToLastLine(file, pkgDir, st, s1, head, body, close, first);
    StructCloseStep(LineCtx(file, pkgDir, first + 1 + |body|, close), Kept(s1, body));
  }

  /** A `name :: enum {` line whose braces stay open. */
  predicate EnumOpening(h: Head) {
    !ProcGroupHead(h.rest) && !ProcHead(h.rest) && !StructHead(h.rest) && EnumHead(h.rest) && NetBraces(h.rest) > 0
  }

  /** Such a line read while idle starts collecting an enum body. */
  lemma EnumHeadStep(ctx: LineCtx, st: ParseState)
    requires st.mode == Idle && !st.inBlock && Uncommented(ctx.raw) && DeclHead(Strip(ctx.raw)).Some?
    requires EnumOpening(DeclHead(Strip(ctx.raw)).value)
    ensures Step(ctx, st) == Opened(st, CollectEnum, HeadSym(ctx, st), NetBraces(DeclHead(Strip(ctx.raw)).value.rest), [])
  {
    HeadOpens(ctx, st, CollectEnum, NetBraces(DeclHead(Strip(ctx.raw)).value.rest), []);
  }

  /** The line that closes an enum body records the enum, with the
      variants of the lines collected before it. */
  lemma EnumCloseStep(ctx: LineCtx, st: ParseState)
    requires st.mode == CollectEnum && st.collectSym.Some? && !st.inBlock && Uncommented(ctx.raw)
    requires st.collectDepth + NetBraces(Strip(ctx.raw)) <= 0
    ensures Recorded(st, Step(ctx, st), st.collectSym.value.(variants := EnumVariants(st.collectLines)))
    ensures Step(ctx, st).pendingPrivate == st.pendingPrivate
  {
    CollectingStep(ctx, st);
    EnumCloses(st, Strip(ctx.raw));
  }

  lemma EnumCloses(st: ParseState, text: string)
    requires st.mode == CollectEnum && st.collectSym.Some? && st.collectDepth + NetBraces(text) <= 0
    ensures Recorded(st, Collect(st, text), st.collectSym.value.(variants := EnumVariants(st.collectLines)))
    ensures Collect(st, text).pendingPrivate == st.pendingPrivate
  {
  }

  /** An enum whose body opens on its declaration line, stays open over
      `body` and closes on `close`: the enum is recorded once, as `DeclOf`
      made it, with the variants of the body lines, and the parser is idle
      again. */
  lemma EnumOverLines(file: string, pkgDir: string, st: ParseState, head: string, body: seq<string>,
                      close: string, first: int)
    requires st.mode == Idle && !st.inBlock
    requires Uncommented(head) && DeclHead(Strip(head)).Some? && EnumOpening(DeclHead(Strip(head)).value)
    requires forall k :: 0 <= k < |body| ==> Uncommented(body[k])
    requires StaysOpen(CollectEnum, NetBraces(DeclHead(Strip(head)).value.rest), body)
    requires Uncommented(close)
    requires NetBraces(DeclHead(Strip(head)).value.rest) + NetOf(CollectEnum, body) + NetBraces(Strip(close)) <= 0
    ensures var h := DeclHead(Strip(head)).value;
      var sym := DeclOf(LineCtx(file, pkgDir, first, head), st.packageName, Strip(head), h, st.pendingPrivate).sym;
      var r := Run(file, pkgDir, st, [head] + body + [close], first);
      && r.symbols == st.symbols + [sym.(variants := EnumVariants(StripAll(body)))]
      && r.mode == Idle && !r.pendingPrivate && !r.inBlock && r.imports == st.imports && r.packageName == st.packageName
  {
    var ctx := LineCtx(file, pkgDir, first, head);
    var s1 := Opened(st, CollectEnum, HeadSym(ctx, st), NetBraces(DeclHead(Strip(head)).value.rest), []);
    EnumHeadStep(ctx, st);
    UpToLastLine(file, pkgDir, st, s1, head, body, close, first);
    EnumCloseStep(LineCtx(file, pkgDir, first + 1 + |body|, close), Kept(s1, body));
  }

  /** A `name :: proc(` line whose parentheses stay open. */
  predicate ProcOpening(h: Head) {
    !ProcGroupHead(h.rest) && ProcHead(h.rest) && NetParens(h.rest) > 0
  }

  /** Such a line read while idle starts collecting a procedure header,
      beginning with that line. */
  lemma ProcHeadStep(ctx: LineCtx, st: ParseState)
    requires st.mode == Idle && !st.inBlock && Uncommented(ctx.raw) && DeclHead(Strip(ctx.raw)).Some?
    requires ProcOpening(DeclHead(Strip(ctx.raw)).value)
    ensures Step(ctx, st)
         == Opened(st, CollectProc, HeadSym(ctx, st), NetParens(DeclHead(Strip(ctx.raw)).value.rest), [Strip(ctx.raw)])
  {
    HeadOpens(ctx, st, CollectProc, NetParens(DeclHead(Strip(ctx.raw)).value.rest), [Strip(ctx.raw)]);
  }

  /** The line that closes a procedure header records the procedure, with
      the signature read from the header's lines joined by blanks. */
  lemma ProcCloseStep(ctx: LineCtx, st: ParseState)
    requires st.mode == CollectProc && st.collectSym.Some? && !st.inBlock && Uncommented(ctx.raw)
    requires st.collectDepth + NetParens(Strip(ctx.raw)) <= 0
    ensures var ps := ExtractProcSignatureFixed(Join(st.collectLines + [Strip(ctx.raw)], " "));
      Recorded(st, Step(ctx, st), st.collectSym.value.(signature := ps.signature, params := ps.params, returnType := ps.returnType))
    ensures Step(ctx, st).pendingPrivate == st.pendingPrivate
  {
    CollectingStep(ctx, st);
    ProcCloses(st, Strip(ctx.raw));
  }

  lemma ProcCloses(st: ParseState, text: string)
    requires st.mode == CollectProc && st.collectSym.Some? && st.collectDepth + NetParens(text) <= 0
    ensures var ps := ExtractProcSignatureFixed(Join(st.collectLines + [text], " "));
      Recorded(st, Collect(st, text),
               st.collectSym.value.(signature := ps.signature, params := ps.params, returnType := ps.returnType))
    ensures Collect(st, text).pendingPrivate == st.pendingPrivate
  {
    var sym := st.collectSym.value;
    var lines := st.collectLines + [text];
    var ps := ExtractProcSignatureFixed(Join(lines, " "));
    var done := sym.(signature := ps.signature, params := ps.params, returnType := ps.returnType);
    assert Collect(st, text) == ProcLine(st, sym, text);
    assert ProcLine(st, sym, text)
        == Emit(st, done).(mode := Idle, collectDepth := st.collectDepth + NetParens(text), collectLines := lines);
  }

  /** A procedure whose parameter list opens on its declaration line,
      stays open over `body` and closes on `close`: the procedure is
      recorded once, as `DeclOf` made it, with the signature, parameters
      and return type read from all its header lines, stripped and joined
      by blanks; the parser is idle again. */
  lemma ProcOverLines(file: string, pkgDir: string, st: ParseState, head: string, body: seq<string>,
                      close: string, first: int)
    requires st.mode == Idle && !st.inBlock
    requires Uncommented(head) && DeclHead(Strip(head)).Some? && ProcOpening(DeclHead(Strip(head)).value)
    requires forall k :: 0 <= k < |body| ==> Uncommented(body[k])
    requires StaysOpen(CollectProc, NetParens(DeclHead(Strip(head)).value.rest), body)
    requires Uncommented(close)
    requires NetParens(DeclHead(Strip(head)).value.rest) + NetOf(CollectProc, body) + NetParens(Strip(close)) <= 0
    ensures var h := DeclHead(Strip(head)).value;
      var sym := DeclOf(LineCtx(file, pkgDir, first, head), st.packageName, Strip(head), h, st.pendingPrivate).sym;
      var ps := ExtractProcSignatureFixed(Join([Strip(head)] + StripAll(body) + [Strip(close)], " "));
      var r := Run(file, pkgDir, st, [head] + body + [close], first);
      && r.symbols == st.symbols + [sym.(signature := ps.signature, params := ps.params, returnType := ps.returnType)]
      && r.mode == Idle && !r.pendingPrivate && !r.inBlock && r.imports == st.imports && r.packageName == st.packageName
  {
    var ctx := LineCtx(file, pkgDir, first, head);
    var s1 := Opened(st, CollectProc, HeadSym(ctx, st), NetParens(DeclHead(Strip(head)).value.rest), [Strip(head)]);
    ProcHeadStep(ctx, st);
    UpToLastLineFrom(file, pkgDir, st, s1, head, body, close, first);
    ProcCloseStep(LineCtx(file, pkgDir, first + 1 + |body|, close), Extended(s1, body));
  }

  /** A declaration line read while idle is handed to `DeclOf`. */
  lemma HeadDeclares(ctx: LineCtx, st: ParseState, text: string)
    requires DeclHead(text).Some?
    ensures Dispatch(ctx, st, text)
         == Apply(st.(pendingPrivate := false), DeclOf(ctx, st.packageName, text, DeclHead(text).value, st.pendingPrivate))
  {
    DispatchDeclLine(ctx, st, text);
  }

  /** A text without a line break is one line. */
  lemma SingleLine(s: string)
    requires s != [] && forall i :: 0 <= i < |s| ==> !IsLineBreak(s[i])
    ensures SplitLines(s) == [s]
  {
    assert LineEnd(s) == |s|;
  }

  // ---------------------------------------------------------------------
  // A procedure header over several lines, worked through
  // ---------------------------------------------------------------------

  /** For instance, the file

        f :: proc(
          a: int,
          b: string,
        ) -> bool {
        }

      declares one procedure `f`, on line 1: its header is read across its
      first four lines and joined with blanks, its parameters are `a: int`
      and `b: string`, its return type is `bool`, and the closing brace
      declares nothing. */
  lemma MultiLineProcFile(filepath: string, text: string)
    requires text == "f :: proc(" + "\n" + "  a: int," + "\n" + "  b: string," + "\n" + ") -> bool {" + "\n" + "}"
    ensures var syms := ParseText(filepath, text).symbols;
      && |syms| == 1 && syms[0].kind == Proc && syms[0].name == "f"
      && syms[0].file == filepath && syms[0].packageDir == PkgDir(filepath) && syms[0].line == 1
      && syms[0].signature == "f :: proc( a: int, b: string, ) -> bool"
      && syms[0].params == [Param("a", "int"), Param("b", "string")]
      && syms[0].returnType == "bool"
  {
    ExampleText(text);
    ExamplePieces();
    ProcHeaderFile(filepath, text, "f", "a", "int", "b", "string", "bool");
    ExampleSignatureText();
  }

  lemma ExampleText(text: string)
    requires text == "f :: proc(" + "\n" + "  a: int," + "\n" + "  b: string," + "\n" + ") -> bool {" + "\n" + "}"
    ensures text == "f :: proc(" + "\n" + ("  a: int," + "\n" + ("  b: string," + "\n" + (") -> bool {" + "\n" + "}")))
  {
    LinesRegrouped("f :: proc(", "  a: int,", "  b: string,", ") -> bool {", "}");
  }

  /** Four line breaks between five lines, regrouped from the right. */
  lemma LinesRegrouped(l1: string, l2: string, l3: string, l4: string, l5: string)
    ensures l1 + "\n" + l2 + "\n" + l3 + "\n" + l4 + "\n" + l5
         == l1 + "\n" + (l2 + "\n" + (l3 + "\n" + (l4 + "\n" + l5)))
  {
  }

  lemma ExamplePieces()
    ensures Ident("f") && Ident("a") && Ident("int") && Ident("b") && Ident("string") && Ident("bool")
    ensures "f :: proc(" == "f" + " :: proc("
    ensures "  a: int," == "  " + ("a" + ": " + "int" + ",") && "  b: string," == "  " + ("b" + ": " + "string" + ",")
    ensures ") -> bool {" == ") -> " + "bool" + " {"
  {
  }

  lemma ExampleSignatureText()
    ensures "f" + " :: proc( " + "a" + ": " + "int" + ", " + "b" + ": " + "string" + ", ) -> " + "bool"
         == "f :: proc( a: int, b: string, ) -> bool"
  {
    assert "f" + " :: proc( " + "a" + ": " + "int" + ", " == "f :: proc( a: int, ";
    assert "f :: proc( a: int, " + "b" + ": " + "string" == "f :: proc( a: int, b: string";
  }

  /** A file holding a procedure whose two parameters sit on lines of
      their own, its return type on the line of the `)`, and its closing
      brace on the last line declares that procedure alone, on line 1,
      with the header's lines joined by blanks as its signature. */
  lemma ProcHeaderFile(filepath: string, text: string, n: string, a: string, t1: string, b: string, t2: string,
                       ret: string)
    requires Ident(n) && Ident(a) && Ident(t1) && Ident(b) && Ident(t2) && Ident(ret)
    requires text == (n + " :: proc(") + "\n" + (("  " + (a + ": " + t1 + ",")) + "\n"
                    + (("  " + (b + ": " + t2 + ",")) + "\n" + ((") -> " + ret + " {") + "\n" + "}")))
    ensures var syms := ParseText(filepath, text).symbols;
      && |syms| == 1 && syms[0].kind == Proc && syms[0].name == n
      && syms[0].file == filepath && syms[0].packageDir == PkgDir(filepath) && syms[0].line == 1
      && syms[0].signature == n + " :: proc( " + a + ": " + t1 + ", " + b + ": " + t2 + ", ) -> " + ret
      && syms[0].params == [Param(a, t1), Param(b, t2)]
      && syms[0].returnType == ret
  {
    var pkgDir := PkgDir(filepath);
    var head, close := n + " :: proc(", ") -> " + ret + " {";
    var body := ["  " + (a + ": " + t1 + ","), "  " + (b + ": " + t2 + ",")];
    HeaderSplit(text, n, a, t1, b, t2, ret);
    HeadLine(n);
    BodyLines(a, t1, b, t2);
    CloseLine(ret);
    ProcOverLines(filepath, pkgDir, Initial, head, body, close, 1);
    ExampleRun(filepath, text, head, body, close);
    HeaderSymbol(LineCtx(filepath, pkgDir, 1, head), n);
    HeaderSignature(n, a, t1, b, t2, ret);
  }

  /** A text with no line break. */
  predicate NoBreak(s: string) {
    forall i :: 0 <= i < |s| ==> !IsLineBreak(s[i])
  }

  /** The file's lines are the header's four and the closing brace. */
  lemma HeaderSplit(text: string, n: string, a: string, t1: string, b: string, t2: string, ret: string)
    requires Ident(n) && Ident(a) && Ident(t1) && Ident(b) && Ident(t2) && Ident(ret)
    requires text == (n + " :: proc(") + "\n" + (("  " + (a + ": " + t1 + ",")) + "\n"
                    + (("  " + (b + ": " + t2 + ",")) + "\n" + ((") -> " + ret + " {") + "\n" + "}")))
    ensures SplitLines(text)
         == [n + " :: proc("] + ["  " + (a + ": " + t1 + ","), "  " + (b + ": " + t2 + ",")]
            + [") -> " + ret + " {"] + ["}"]
  {
    var l1, l2, l3, l4 := n + " :: proc(", "  " + (a + ": " + t1 + ","), "  " + (b + ": " + t2 + ","),
                          ") -> " + ret + " {";
    HeadNoBreak(n);
    ParamNoBreak(a, t1);
    ParamNoBreak(b, t2);
    CloseNoBreak(ret);
    SplitFive(text, l1, l2, l3, l4);
    FiveLines(l1, l2, l3, l4, "}");
  }

  lemma FiveLines<T>(l1: T, l2: T, l3: T, l4: T, l5: T)
    ensures [l1, l2, l3, l4, l5] == [l1] + [l2, l3] + [l4] + [l5]
  {
  }

  /** Four lines without a break and a closing brace, joined by line
      feeds, split back into those five lines. */
  lemma SplitFive(text: string, l1: string, l2: string, l3: string, l4: string)
    requires NoBreak(l1) && NoBreak(l2) && NoBreak(l3) && NoBreak(l4)
    requires text == l1 + "\n" + (l2 + "\n" + (l3 + "\n" + (l4 + "\n" + "}")))
    ensures SplitLines(text) == [l1, l2, l3, l4, "}"]
  {
    SplitLinesCons(l1, l2 + "\n" + (l3 + "\n" + (l4 + "\n" + "}")));
    SplitLinesCons(l2, l3 + "\n" + (l4 + "\n" + "}"));
    SplitLinesCons(l3, l4 + "\n" + "}");
    SplitLinesCons(l4, "}");
    SingleLine("}");
    ConsFive(l1, l2, l3, l4, "}");
  }

  lemma ConsFive<T>(l1: T, l2: T, l3: T, l4: T, l5: T)
    ensures [l1] + ([l2] + ([l3] + ([l4] + [l5]))) == [l1, l2, l3, l4, l5]
  {
  }

  /** Parsing the file is running the header's lines, then one step on the
      closing brace, which keeps the symbols. */
  lemma ExampleRun(filepath: string, text: string, head: string, body: seq<string>, close: string)
    requires SplitLines(text) == [head] + body + [close] + ["}"]
    requires Run(filepath, PkgDir(filepath), Initial, [head] + body + [close], 1).mode == Idle
    requires !Run(filepath, PkgDir(filepath), Initial, [head] + body + [close], 1).inBlock
    ensures ParseText(filepath, text).symbols == Run(filepath, PkgDir(filepath), Initial, [head] + body + [close], 1).symbols
  {
    var pkgDir := PkgDir(filepath);
    var lines := [head] + body + [close];
    RunSnoc(filepath, pkgDir, Initial, lines, "}", 1);
    BraceLineKeeps(LineCtx(filepath, pkgDir, 1 + |lines|, "}"), Run(filepath, pkgDir, Initial, lines, 1));
  }

  /** Reading one more line is one more step. */
  lemma RunSnoc(file: string, pkgDir: string, st: ParseState, lines: seq<string>, last: string, first: int)
    ensures Run(file, pkgDir, st, lines + [last], first)
         == Step(LineCtx(file, pkgDir, first + |lines|, last), Run(file, pkgDir, st, lines, first))
  {
    var r := Run(file, pkgDir, st, lines, first);
    RunIsRunWith(file, pkgDir, st, lines + [last], first);
    RunIsRunWith(file, pkgDir, st, lines, first);
    RunWithAppend(Step, file, pkgDir, st, lines, [last], first);
    assert RunWith(Step, file, pkgDir, r, [last], first + |lines|)
        == RunWith(Step, file, pkgDir, Step(LineCtx(file, pkgDir, first + |lines|, last), r), [], first + |lines| + 1);
  }

  /** A line holding only `}`, read while idle outside a block comment,
      declares nothing. */
  lemma BraceLineKeeps(ctx: LineCtx, st: ParseState)
    requires ctx.raw == "}" && st.mode == Idle && !st.inBlock
    ensures Step(ctx, st).symbols == st.symbols
  {
    var line := "}";
    StripNonBlankEnds(line);
    NoCommentIn(line);
    assert CleanLine(line, false) == Cleaned(line, false, false);
    assert !StartsWith(line, "package") && !StartsWith(line, "import") && !StartsWith(line, "@");
    assert SkipWord(line, 0) == 0;
    OtherLineCancelsPrivate(ctx, st, line);
  }

  /** Every character of an identifier is a word character, so none is a
      blank, a line break, a `/`, a `,`, a brace or a parenthesis. */
  lemma IdentChars(w: string)
    requires Ident(w)
    ensures !IsSpace(w[0]) && !IsSpace(w[|w| - 1]) && TypeText(w)
    ensures '/' !in w && '(' !in w && ')' !in w && '{' !in w
    ensures NoBreak(w)
  {
  }

  /** A text with no blank at either end and no `/` is its own stripped,
      uncommented line. */
  lemma CleanText(t: string)
    requires t != [] && !IsSpace(t[0]) && !IsSpace(t[|t| - 1]) && '/' !in t
    ensures Uncommented(t) && Strip(t) == t
  {
    StripNonBlankEnds(t);
    NoCommentIn(t);
  }

  /** The first line `n :: proc(` declares `n` and opens the parameter
      list. */
  lemma HeadLine(n: string)
    requires Ident(n)
    ensures var head := n + " :: proc(";
      && Uncommented(head) && DeclHead(Strip(head)) == Some(Head(n, "proc("))
      && ProcOpening(Head(n, "proc(")) && NetParens("proc(") == 1
  {
    HeadClean(n);
    HeadDeclOf(n);
    ProcParenHead("proc(");
  }

  lemma HeadClean(n: string)
    requires Ident(n)
    ensures Uncommented(n + " :: proc(") && Strip(n + " :: proc(") == n + " :: proc("
  {
    var head := n + " :: proc(";
    IdentChars(n);
    assert head[0] == n[0] && head[|head| - 1] == '(';
    forall i | 0 <= i < |head| ensures head[i] != '/' {
      if i < |n| {
        assert head[i] == n[i];
      }
    }
    CleanText(head);
  }

  lemma HeadNoBreak(n: string)
    requires Ident(n)
    ensures NoBreak(n + " :: proc(")
  {
    var head := n + " :: proc(";
    IdentChars(n);
    forall i | 0 <= i < |head| ensures !IsLineBreak(head[i]) {
      if i < |n| {
        assert head[i] == n[i];
      }
    }
  }

  lemma HeadDeclOf(n: string)
    requires Ident(n)
    ensures DeclHead(n + " :: proc(") == Some(Head(n, "proc("))
  {
    assert n + " :: proc(" == n + " :: " + "proc(";
    StripNonBlankEnds("proc(");
    DeclHeadRoundTrip(n, "proc(");
  }

  /** `proc(` is a procedure head, not a group, and opens one parenthesis. */
  lemma ProcParenHead(rest: string)
    requires rest == "proc("
    ensures !ProcGroupHead(rest) && ProcHead(rest) && NetParens(rest) == 1
  {
    assert OccursAt(rest, "proc", 0) && SkipSpaces(rest, 4) == 4;
    assert ParenAfterProc(rest, 4) == Some(4);
    assert rest == "proc" + "(";
    CountCharAppend("proc", "(", '(');
    CountCharAppend("proc", "(", ')');
  }

  /** The two parameter lines are uncommented and keep the parameter list
      open. */
  lemma BodyLines(a: string, t1: string, b: string, t2: string)
    requires Ident(a) && Ident(t1) && Ident(b) && Ident(t2)
    ensures var body := ["  " + (a + ": " + t1 + ","), "  " + (b + ": " + t2 + ",")];
      && (forall k :: 0 <= k < |body| ==> Uncommented(body[k]))
      && StaysOpen(CollectProc, 1, body) && NetOf(CollectProc, body) == 0
  {
    var x, y := "  " + (a + ": " + t1 + ","), "  " + (b + ": " + t2 + ",");
    ParamLine(a, t1);
    ParamLine(b, t2);
    BothUncommented(x, y);
    FlatPair(x, y);
  }

  lemma BothUncommented(x: string, y: string)
    requires Uncommented(x) && Uncommented(y)
    ensures forall k :: 0 <= k < |[x, y]| ==> Uncommented([x, y][k])
  {
    forall k | 0 <= k < |[x, y]| ensures Uncommented([x, y][k]) {
      if k == 1 {
        assert [x, y][k] == y;
      }
    }
  }

  /** Two lines that each leave the depth as it was keep a body open. */
  lemma FlatPair(x: string, y: string)
    requires Net(CollectProc, Strip(x)) == 0 && Net(CollectProc, Strip(y)) == 0
    ensures StaysOpen(CollectProc, 1, [x, y]) && NetOf(CollectProc, [x, y]) == 0
  {
    var body := [x, y];
    NetOfPair(CollectProc, x, y);
    forall k | 0 < k <= |body| ensures 1 + NetOf(CollectProc, body[..k]) > 0 {
      if k == 1 {
        assert body[..k] == [x];
      } else {
        assert body[..k] == body;
      }
    }
  }

  lemma NetOfPair(m: Mode, x: string, y: string)
    ensures NetOf(m, [x]) == Net(m, Strip(x))
    ensures NetOf(m, [x, y]) == Net(m, Strip(x)) + Net(m, Strip(y))
  {
    assert [x][1..] == [] && [x, y][1..] == [y] && [y][1..] == [];
  }

  /** A parameter line `  a: t,` strips to `a: t,` and leaves the depth as
      it was. */
  lemma ParamLine(a: string, t: string)
    requires Ident(a) && Ident(t)
    ensures var p := a + ": " + t + ",";
      Uncommented("  " + p) && Strip("  " + p) == p && Net(CollectProc, Strip("  " + p)) == 0
  {
    var p := a + ": " + t + ",";
    ParamText(a, t);
    IndentedLine(p);
  }

  lemma ParamNoBreak(a: string, t: string)
    requires Ident(a) && Ident(t)
    ensures NoBreak("  " + (a + ": " + t + ","))
  {
    var p := a + ": " + t + ",";
    var line := "  " + p;
    IdentChars(a);
    IdentChars(t);
    forall i | 0 <= i < |line| ensures !IsLineBreak(line[i]) {
      if 2 <= i < 2 + |a| {
        assert line[i] == a[i - 2];
      } else if 2 + |a| + 2 <= i < 2 + |a| + 2 + |t| {
        assert line[i] == t[i - |a| - 4];
      }
    }
  }

  /** `a: t,` has no blank at either end, no `/` and no parenthesis. */
  lemma ParamText(a: string, t: string)
    requires Ident(a) && Ident(t)
    ensures var p := a + ": " + t + ",";
      && p != [] && !IsSpace(p[0]) && !IsSpace(p[|p| - 1])
      && '/' !in p && '(' !in p && ')' !in p
  {
    var p := a + ": " + t + ",";
    IdentChars(a);
    IdentChars(t);
    assert p[0] == a[0] && p[|p| - 1] == ',';
    forall i | 0 <= i < |p| ensures p[i] != '/' && p[i] != '(' && p[i] != ')' {
      if i < |a| {
        assert p[i] == a[i];
      } else if |a| + 2 <= i < |a| + 2 + |t| {
        assert p[i] == t[i - |a| - 2];
      }
    }
  }

  /** Such a text indented by two blanks strips back to itself. */
  lemma IndentedLine(p: string)
    requires p != [] && !IsSpace(p[0]) && !IsSpace(p[|p| - 1])
    requires '/' !in p && '(' !in p && ')' !in p
    ensures Uncommented("  " + p) && Strip("  " + p) == p && Net(CollectProc, p) == 0
  {
    IndentStrip(p);
    CleanText(p);
    assert Strip("  " + p) == Strip(p);
  }

  /** Two leading blanks are stripped from a text with non-blank ends. */
  lemma IndentStrip(p: string)
    requires p != [] && !IsSpace(p[0]) && !IsSpace(p[|p| - 1])
    ensures Strip("  " + p) == p
  {
    var line := "  " + p;
    assert line[1..] == " " + p;
    assert Strip(line) == Strip(" " + p);
    assert (" " + p)[1..] == p;
    assert Strip(" " + p) == Strip(p);
  }

  /** The line `) -> ret {` closes the parameter list. */
  lemma CloseLine(ret: string)
    requires Ident(ret)
    ensures var close := ") -> " + ret + " {";
      Uncommented(close) && Strip(close) == close && NetParens(Strip(close)) == -1
  {
    var close := ") -> " + ret + " {";
    var t := " -> " + ret + " {";
    IdentChars(ret);
    assert close == ")" + t;
    forall i | 0 <= i < |t| ensures t[i] != '/' && t[i] != '(' && t[i] != ')' {
      if 4 <= i < 4 + |ret| {
        assert t[i] == ret[i - 4];
      }
    }
    assert close[0] == ')' && close[|close| - 1] == '{';
    CleanText(close);
    ClosingParen(t);
  }

  lemma CloseNoBreak(ret: string)
    requires Ident(ret)
    ensures NoBreak(") -> " + ret + " {")
  {
    var close := ") -> " + ret + " {";
    IdentChars(ret);
    forall i | 0 <= i < |close| ensures !IsLineBreak(close[i]) {
      if 5 <= i < 5 + |ret| {
        assert close[i] == ret[i - 5];
      }
    }
  }

  /** `)` followed by a text without parentheses closes one. */
  lemma ClosingParen(t: string)
    requires '(' !in t && ')' !in t
    ensures NetParens(")" + t) == -1
  {
    CountCharAppend(")", t, '(');
    CountCharAppend(")", t, ')');
    assert CountChar(")", ')') == 1 + CountChar([], ')');
  }

  /** The symbol the header's first line opens is a procedure named `n` on
      that line. */
  lemma HeaderSymbol(ctx: LineCtx, n: string)
    requires Ident(n)
    ensures var sym := DeclOf(ctx, [], n + " :: proc(", Head(n, "proc("), false).sym;
      sym.kind == Proc && MadeFor(sym, ctx, n, false)
  {
    ProcParenHead("proc(");
  }

  /** The header joined with blanks is `n :: proc( a: t1, b: t2, ) -> ret {`,
      whose signature, parameters and return type are the ones the file
      writes. */
  lemma HeaderSignature(n: string, a: string, t1: string, b: string, t2: string, ret: string)
    requires Ident(n) && Ident(a) && Ident(t1) && Ident(b) && Ident(t2) && Ident(ret)
    ensures var head, close := n + " :: proc(", ") -> " + ret + " {";
      var body := ["  " + (a + ": " + t1 + ","), "  " + (b + ": " + t2 + ",")];
      ExtractProcSignatureFixed(Join([Strip(head)] + StripAll(body) + [Strip(close)], " "))
      == ProcSig(n + " :: proc( " + a + ": " + t1 + ", " + b + ": " + t2 + ", ) -> " + ret,
                 [Param(a, t1), Param(b, t2)], ret)
  {
    var params := " " + a + ": " + t1 + ", " + b + ": " + t2 + ", ";
    HeaderJoin(n, a, t1, b, t2, ret);
    HeaderProcLine(n, a, t1, b, t2, ret);
  }

  /** The corrected extractor on `n :: proc( a: t1, b: t2, ) -> ret {`. */
  lemma HeaderProcLine(n: string, a: string, t1: string, b: string, t2: string, ret: string)
    requires Ident(n) && Ident(a) && Ident(t1) && Ident(b) && Ident(t2) && Ident(ret)
    ensures ExtractProcSignatureFixed(Bodies.ProcLine(n, " " + a + ": " + t1 + ", " + b + ": " + t2 + ", ", ret, ""))
         == ProcSig(n + " :: proc( " + a + ": " + t1 + ", " + b + ": " + t2 + ", ) -> " + ret,
                    [Param(a, t1), Param(b, t2)], ret)
  {
    var params := " " + a + ": " + t1 + ", " + b + ": " + t2 + ", ";
    ParamsText(a, t1, b, t2);
    IdentChars(ret);
    FixedProcLine(n, params, ret, "");
    TwoTypedParams(a, t1, b, t2);
    SignatureText(n, params, a, t1, b, t2, ret);
  }

  lemma SignatureText(n: string, params: string, a: string, t1: string, b: string, t2: string, ret: string)
    requires params == " " + a + ": " + t1 + ", " + b + ": " + t2 + ", "
    ensures n + " :: proc(" + params + ") -> " + ret == n + " :: proc( " + a + ": " + t1 + ", " + b + ": " + t2 + ", ) -> " + ret
  {
  }

  /** The parameter text has no parenthesis and no `{`. */
  lemma ParamsText(a: string, t1: string, b: string, t2: string)
    requires Ident(a) && Ident(t1) && Ident(b) && Ident(t2)
    ensures var params := " " + a + ": " + t1 + ", " + b + ": " + t2 + ", ";
      '(' !in params && ')' !in params && '{' !in params
  {
    IdentChars(a);
    IdentChars(t1);
    IdentChars(b);
    IdentChars(t2);
  }

  /** The header's lines, stripped and joined with blanks. */
  lemma HeaderJoin(n: string, a: string, t1: string, b: string, t2: string, ret: string)
    requires Ident(n) && Ident(a) && Ident(t1) && Ident(b) && Ident(t2) && Ident(ret)
    ensures var head, close := n + " :: proc(", ") -> " + ret + " {";
      var body := ["  " + (a + ": " + t1 + ","), "  " + (b + ": " + t2 + ",")];
      Join([Strip(head)] + StripAll(body) + [Strip(close)], " ")
      == Bodies.ProcLine(n, " " + a + ": " + t1 + ", " + b + ": " + t2 + ", ", ret, "")
  {
    var head, close := n + " :: proc(", ") -> " + ret + " {";
    var p1, p2 := a + ": " + t1 + ",", b + ": " + t2 + ",";
    HeadClean(n);
    ParamLine(a, t1);
    ParamLine(b, t2);
    CloseLine(ret);
    StrippedFour(head, "  " + p1, "  " + p2, close, p1, p2);
    JoinFour(head, p1, p2, close);
    JoinedHeader(n, a, t1, b, t2, ret);
  }

  lemma StrippedFour(w: string, x: string, y: string, z: string, x': string, y': string)
    requires Strip(w) == w && Strip(x) == x' && Strip(y) == y' && Strip(z) == z
    ensures [Strip(w)] + StripAll([x, y]) + [Strip(z)] == [w, x', y', z]
  {
    var s := StripAll([x, y]);
    assert |s| == 2 && s[0] == x' && s[1] == y';
    assert s == [x', y'];
  }

  lemma JoinFour(w: string, x: string, y: string, z: string)
    ensures Join([w, x, y, z], " ") == w + " " + (x + " " + (y + " " + z))
  {
    var parts := [w, x, y, z];
    assert parts[1..] == [x, y, z] && parts[1..][1..] == [y, z] && parts[1..][1..][1..] == [z];
    assert Join([y, z], " ") == y + " " + z;
    assert Join([x, y, z], " ") == x + " " + (y + " " + z);
  }

  lemma JoinedHeader(n: string, a: string, t1: string, b: string, t2: string, ret: string)
    ensures (n + " :: proc(") + " " + ((a + ": " + t1 + ",") + " " + ((b + ": " + t2 + ",") + " " + (") -> " + ret + " {")))
         == Bodies.ProcLine(n, " " + a + ": " + t1 + ", " + b + ": " + t2 + ", ", ret, "")
  {
  }

  // ---------------------------------------------------------------------
  // A file's package and imports
  // ---------------------------------------------------------------------

  /** The file

        package p
        import alias "path"

      parses to the package name `p`, no symbols, and the one import of
      `path` under `alias`, still unresolved. */
  lemma PackageImportFile(filepath: string, p: string, alias: string, path: string)
    requires Ident(p) && Ident(alias)
    requires path != [] && '"' !in path && '/' !in path && NoBreak(path)
    ensures ParseText(filepath, "package " + p + "\n" + ("import " + alias + " " + "\"" + path + "\""))
         == ParsedFile(p, [], [ImportFromPath(alias, path)])
  {
    var l1 := "package " + p;
    var l2 := "import " + alias + " " + "\"" + path + "\"";
    var pkgDir := PkgDir(filepath);
    var imp := ImportFromPath(alias, path);
    PackageLineClean(p);
    ImportLineClean(alias, path);
    SplitLinesCons(l1, l2);
    SingleLine(l2);
    var st1 := Initial.(packageName := p);
    PackageLineSets(LineCtx(filepath, pkgDir, 1, l1), Initial, p);
    ImportLineAppends(LineCtx(filepath, pkgDir, 2, l2), st1, imp);
    RunTwoLines(filepath, pkgDir, Initial, l1, l2);
  }

  /** `package p` is an uncommented line naming the package `p`. */
  lemma PackageLineClean(p: string)
    requires Ident(p)
    ensures var l := "package " + p;
      NoBreak(l) && CleanLine(Strip(l), false) == Cleaned(l, false, false) && PackageName(l) == Some(p)
  {
    var l := "package " + p;
    PackageLineChars(p);
    PlainLineKept(l);
    PackageRoundTrip(p, []);
    assert l + [] == l;
  }

  lemma PackageLineChars(p: string)
    requires Ident(p)
    ensures var l := "package " + p;
      NoBreak(l) && '/' !in l && !IsSpace(l[0]) && !IsSpace(l[|l| - 1])
  {
    var l := "package " + p;
    IdentChars(p);
    assert l[|l| - 1] == p[|p| - 1];
    assert forall i :: 8 <= i < |l| ==> l[i] == p[i - 8];
  }

  /** A line with no blank at either end and no `/` passes the comment
      handling untouched. */
  lemma PlainLineKept(l: string)
    requires l != [] && !IsSpace(l[0]) && !IsSpace(l[|l| - 1]) && '/' !in l
    ensures CleanLine(Strip(l), false) == Cleaned(l, false, false)
  {
    CleanText(l);
    UncommentedKept(l);
  }

  /** `import alias "path"` is an uncommented line, not a package line,
      importing `path` under `alias`. */
  lemma ImportLineClean(alias: string, path: string)
    requires Ident(alias)
    requires path != [] && '"' !in path && '/' !in path && NoBreak(path)
    ensures var l := "import " + alias + " " + "\"" + path + "\"";
      && NoBreak(l) && CleanLine(Strip(l), false) == Cleaned(l, false, false)
      && PackageName(l).None? && ImportOf(l) == Some(ImportFromPath(alias, path))
  {
    var l := "import " + alias + " " + "\"" + path + "\"";
    ImportLineChars(alias, path);
    PlainLineKept(l);
    ImportNotPackage(alias, path);
    ImportRoundTrip(alias, path, []);
    assert l + [] == l;
  }

  /** A line starting with `import` is no `package` line. */
  lemma ImportNotPackage(alias: string, path: string)
    ensures PackageName("import " + alias + " " + "\"" + path + "\"").None?
  {
    var s := "import " + alias + " " + "\"" + path + "\"";
    assert !StartsWith(s, "package") by {
      assert s[0] == 'i';
      assert s[..7][0] == 'i';
    }
  }

  lemma ImportLineChars(alias: string, path: string)
    requires Ident(alias)
    requires '/' !in path && NoBreak(path)
    ensures var l := "import " + alias + " " + "\"" + path + "\"";
      NoBreak(l) && '/' !in l && !IsSpace(l[0]) && !IsSpace(l[|l| - 1])
  {
    var l := "import " + alias + " " + "\"" + path + "\"";
    IdentChars(alias);
    forall i | 0 <= i < |l| ensures !IsLineBreak(l[i]) && l[i] != '/' {
      if 7 <= i < 7 + |alias| {
        assert l[i] == alias[i - 7];
      } else if 9 + |alias| <= i < 9 + |alias| + |path| {
        assert l[i] == path[i - 9 - |alias|];
      }
    }
  }

  /** Two lines are read one after the other. */
  lemma RunTwoLines(file: string, pkgDir: string, st: ParseState, l1: string, l2: string)
    ensures Run(file, pkgDir, st, [l1, l2], 1)
         == Step(LineCtx(file, pkgDir, 2, l2), Step(LineCtx(file, pkgDir, 1, l1), st))
  {
    var st1 := Step(LineCtx(file, pkgDir, 1, l1), st);
    assert [l1, l2][1..] == [l2];
    assert Run(file, pkgDir, st, [l1, l2], 1) == Run(file, pkgDir, st1, [l2], 2);
    assert Run(file, pkgDir, st1, [l2], 2) == Run(file, pkgDir, Step(LineCtx(file, pkgDir, 2, l2), st1), [], 3);
  }
}
