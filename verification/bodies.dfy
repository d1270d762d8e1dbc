/** The body parsers (odin_plugin.py:104-252): struct field lists, enum
    variant lists, procedure parameter lists and the procedure signature
    extractor. Each is a pure function from text to lists and maps. */
module Bodies {
  import opened Wrappers
  import opened Text
  import opened Balanced
  import opened Symbols

  // ---------------------------------------------------------------------
  // The joined body text shared by the struct and enum parsers
  // ---------------------------------------------------------------------

  /** A body line that takes part: not blank and not a `//` comment. */
  predicate KeptLine(line: string) {
    Strip(line) != [] && !StartsWith(Strip(line), "//")
  }

  /** The kept lines, each stripped and without trailing commas. */
  function BodyPieces(lines: seq<string>): (r: seq<string>)
    ensures |r| <= |lines|
  {
    if lines == [] then [] else Piece(lines[0]) + BodyPieces(lines[1..])
  }

  /** What one line contributes: nothing, or its stripped text without
      trailing commas. */
  function Piece(line: string): (r: seq<string>)
    ensures |r| <= 1
  {
    if KeptLine(line) then [RStripAny(Strip(line), {','})] else []
  }

  /** The body lines joined into one comma-separated text
      (odin_plugin.py:110-114 and 147-151). */
  function BodyText(lines: seq<string>): string {
    Join(BodyPieces(lines), ", ")
  }

  lemma {:induction false} BodyPiecesAppend(a: seq<string>, b: seq<string>)
    ensures BodyPieces(a + b) == BodyPieces(a) + BodyPieces(b)
    decreases |a|
  {
    if a == [] {
      assert a + b == b;
    } else {
      assert (a + b)[0] == a[0];
      assert (a + b)[1..] == a[1..] + b;
      BodyPiecesAppend(a[1..], b);
      var p := Piece(a[0]);
      assert BodyPieces(a + b) == p + (BodyPieces(a[1..]) + BodyPieces(b));
      assert p + (BodyPieces(a[1..]) + BodyPieces(b)) == (p + BodyPieces(a[1..])) + BodyPieces(b);
    }
  }

  /** A blank line or a `//` comment line anywhere in a body changes
      nothing in the text the struct and enum parsers split. */
  lemma CommentLinesIgnored(before: seq<string>, comment: string, after: seq<string>)
    requires !KeptLine(comment)
    ensures BodyText(before + [comment] + after) == BodyText(before + after)
  {
    BodyPiecesAppend(before + [comment], after);
    BodyPiecesAppend(before, [comment]);
    BodyPiecesAppend(before, after);
    assert BodyPieces([comment]) == BodyPieces([]) == [];
    assert BodyPieces(before + [comment]) == BodyPieces(before);
  }

  /** `[n.strip() for n in xs if n.strip()]` */
  function StrippedNonEmpty(xs: seq<string>): (r: seq<string>)
    ensures forall i :: 0 <= i < |r| ==> r[i] != []
    ensures |r| <= |xs|
  {
    if xs == [] then []
    else (if Strip(xs[0]) != [] then [Strip(xs[0])] else []) + StrippedNonEmpty(xs[1..])
  }

  /** The names of a comma-grouped name list (`names.split(',')`, each
      stripped, empty ones dropped). */
  function NamesIn(names: string): (r: seq<string>)
    ensures forall i :: 0 <= i < |r| ==> r[i] != []
  {
    StrippedNonEmpty(SplitChar(names, ','))
  }

  // ---------------------------------------------------------------------
  // Struct fields: _parse_struct_fields (odin_plugin.py:104-140)
  // ---------------------------------------------------------------------

  /** How one comma part of a struct body reads once stripped: blank, a
      declaration `names: Type` (maybe after `using `), or a bare name
      whose type comes with a later part. */
  datatype FieldPart =
    | Blank
    | Declared(isUsing: bool, names: seq<string>, typ: string)
    | Bare(name: string)

  function ReadFieldPart(part: string): (r: FieldPart)
    ensures r.Bare? ==> r.name != []
    ensures r.Declared? ==> forall i :: 0 <= i < |r.names| ==> r.names[i] != []
  {
    var p := Strip(part);
    if p == [] then Blank
    else
      var isUsing := StartsWith(p, "using ");
      var q := if isUsing then Strip(p[6..]) else p;
      var colon := FindColonDepth0(q);
      if colon >= 0 then Declared(isUsing, NamesIn(Strip(q[..colon])), Strip(q[colon + 1..]))
      else Bare(q)
  }

  function ReadFieldParts(parts: seq<string>): (r: seq<FieldPart>)
    ensures |r| == |parts|
    ensures forall i :: 0 <= i < |parts| ==> r[i] == ReadFieldPart(parts[i])
  {
    if parts == [] then [] else [ReadFieldPart(parts[0])] + ReadFieldParts(parts[1..])
  }

  /** The three locals of the struct loop. */
  datatype FieldScan = FieldScan(fields: map<string, string>, usingTypes: seq<string>, pending: seq<string>)

  /** `for name in names: fields[name] = typ` */
  function AssignAll(m: map<string, string>, names: seq<string>, typ: string): (r: map<string, string>)
    ensures r.Keys == m.Keys + set n | n in names
    ensures forall n :: n in names ==> r[n] == typ
    ensures forall k :: k in m && k !in names ==> r[k] == m[k]
    decreases |names|
  {
    if names == [] then m else AssignAll(m[names[0] := typ], names[1..], typ)
  }

  /** One iteration of the struct loop. A declaration gives every pending
      name and every one of its own names the declared type, overwriting
      earlier entries, and appends the type to `usingTypes` when the part
      is a `using`; a bare name waits for the next declaration. */
  function FieldStep(st: FieldScan, p: FieldPart): (r: FieldScan)
    ensures p.Declared? ==>
      && r.pending == []
      && r.fields.Keys == st.fields.Keys + (set n | n in st.pending + p.names)
      && (forall n :: n in st.pending + p.names ==> r.fields[n] == p.typ)
      && (forall k :: k in st.fields && k !in st.pending + p.names ==> r.fields[k] == st.fields[k])
    ensures p.Bare? ==> r == FieldScan(st.fields, st.usingTypes, st.pending + [p.name])
    ensures p.Blank? ==> r == st
  {
    match p
    case Blank => st
    case Bare(name) => FieldScan(st.fields, st.usingTypes, st.pending + [name])
    case Declared(isUsing, names, typ) =>
      FieldScan(AssignAll(st.fields, st.pending + names, typ),
                if isUsing then st.usingTypes + [typ] else st.usingTypes, [])
  }

  function FieldLoop(st: FieldScan, ps: seq<FieldPart>): FieldScan
    decreases |ps|
  {
    if ps == [] then st else FieldLoop(FieldStep(st, ps[0]), ps[1..])
  }

  lemma {:induction false} FieldLoopAppend(st: FieldScan, ps: seq<FieldPart>, last: FieldPart)
    ensures FieldLoop(st, ps + [last]) == FieldStep(FieldLoop(st, ps), last)
    decreases |ps|
  {
    if ps == [] {
      assert ps + [last] == [last];
    } else {
      assert (ps + [last])[1..] == ps[1..] + [last];
      FieldLoopAppend(FieldStep(st, ps[0]), ps[1..], last);
    }
  }

  /** The embedded types of a list of struct parts, read part by part:
      the type of every `using` declaration, in source order. */
  function UsingTypesOf(ps: seq<FieldPart>): seq<string> {
    if ps == [] then []
    else (if ps[0].Declared? && ps[0].isUsing then [ps[0].typ] else []) + UsingTypesOf(ps[1..])
  }

  lemma {:induction false} UsingTypesInOrder(st: FieldScan, ps: seq<FieldPart>)
    ensures FieldLoop(st, ps).usingTypes == st.usingTypes + UsingTypesOf(ps)
    decreases |ps|
  {
    if ps != [] {
      UsingTypesInOrder(FieldStep(st, ps[0]), ps[1..]);
    }
  }

  /** No field name, waiting or assigned, is empty. */
  predicate NamedScan(st: FieldScan) {
    && (forall k :: k in st.fields ==> k != [])
    && (forall i :: 0 <= i < |st.pending| ==> st.pending[i] != [])
  }

  predicate WellRead(ps: seq<FieldPart>) {
    forall j :: 0 <= j < |ps| ==>
      && (ps[j].Bare? ==> ps[j].name != [])
      && (ps[j].Declared? ==> forall i :: 0 <= i < |ps[j].names| ==> ps[j].names[i] != [])
  }

  lemma {:induction false} FieldLoopNamed(st: FieldScan, ps: seq<FieldPart>)
    requires NamedScan(st) && WellRead(ps)
    ensures NamedScan(FieldLoop(st, ps))
    decreases |ps|
  {
    if ps != [] {
      var st' := FieldStep(st, ps[0]);
      if ps[0].Declared? {
        forall k | k in st'.fields ensures k != [] {
          if k !in st.fields {
            var names := st.pending + ps[0].names;
            assert k in names;
            var i :| 0 <= i < |names| && names[i] == k;
            if i >= |st.pending| {
              assert ps[0].names[i - |st.pending|] == k;
            }
          }
        }
      }
      FieldLoopNamed(st', ps[1..]);
    }
  }

  /** The result of `_parse_struct_fields`. */
  datatype StructBody = StructBody(fields: map<string, string>, usingTypes: seq<string>)

  /** The comma parts of a struct body, read. */
  function StructParts(bodyLines: seq<string>): seq<FieldPart> {
    ReadFieldParts(SplitBalanced(BodyText(bodyLines), ','))
  }

  /** `_parse_struct_fields(body_lines)`. The embedded types are exactly the
      `using` declarations of the body, in source order, and every field
      name is a non-empty name. */
  function StructFields(bodyLines: seq<string>): (r: StructBody)
    ensures r.usingTypes == UsingTypesOf(StructParts(bodyLines))
    ensures forall k :: k in r.fields ==> k != []
  {
    var ps := StructParts(bodyLines);
    var st := FieldLoop(FieldScan(map[], [], []), ps);
    UsingTypesInOrder(FieldScan(map[], [], []), ps);
    FieldLoopNamed(FieldScan(map[], [], []), ps);
    StructBody(st.fields, st.usingTypes)
  }

  function BareNames(ps: seq<FieldPart>): (r: seq<string>)
    requires forall i :: 0 <= i < |ps| ==> ps[i].Bare?
    ensures |r| == |ps| && forall i :: 0 <= i < |ps| ==> r[i] == ps[i].name
  {
    if ps == [] then [] else [ps[0].name] + BareNames(ps[1..])
  }

  /** Bare names that precede a declaration (`a, b: T` arrives as the parts
      `a` and ` b: T`) wait in `pending` until the declaration. */
  lemma {:induction false} BareNamesWait(st: FieldScan, bare: seq<FieldPart>)
    requires forall i :: 0 <= i < |bare| ==> bare[i].Bare?
    ensures FieldLoop(st, bare) == FieldScan(st.fields, st.usingTypes, st.pending + BareNames(bare))
    decreases |bare|
  {
    if bare != [] {
      BareNamesWait(FieldStep(st, bare[0]), bare[1..]);
      PendingCons(st.pending, bare);
    }
  }

  lemma PendingCons(pending: seq<string>, bare: seq<FieldPart>)
    requires bare != [] && forall i :: 0 <= i < |bare| ==> bare[i].Bare?
    ensures pending + [bare[0].name] + BareNames(bare[1..]) == pending + BareNames(bare)
  {
    var rest := BareNames(bare[1..]);
    assert BareNames(bare) == [bare[0].name] + rest;
    ConsAssoc(pending, bare[0].name, rest);
  }

  lemma ConsAssoc(p: seq<string>, x: string, rest: seq<string>)
    ensures p + [x] + rest == p + ([x] + rest)
  {
  }

  /** Names grouped before one colon, including those that arrived as
      separate comma parts, all receive that declaration's type. */
  lemma GroupedFieldsShareType(st: FieldScan, bare: seq<FieldPart>, decl: FieldPart, n: string)
    requires forall i :: 0 <= i < |bare| ==> bare[i].Bare?
    requires decl.Declared?
    requires n in st.pending || n in BareNames(bare) || n in decl.names
    ensures n in FieldLoop(st, bare + [decl]).fields
    ensures FieldLoop(st, bare + [decl]).fields[n] == decl.typ
    ensures FieldLoop(st, bare + [decl]).pending == []
  {
    BareNamesWait(st, bare);
    FieldLoopAppend(st, bare, decl);
    assert n in st.pending + BareNames(bare) + decl.names;
  }

  /** A later declaration of a name overwrites an earlier one. */
  lemma LaterFieldWins(st: FieldScan, ps: seq<FieldPart>, decl: FieldPart, n: string)
    requires decl.Declared? && n in decl.names
    ensures n in FieldLoop(st, ps + [decl]).fields
    ensures FieldLoop(st, ps + [decl]).fields[n] == decl.typ
  {
    FieldLoopAppend(st, ps, decl);
    assert n in FieldLoop(st, ps).pending + decl.names;
  }

  // ---------------------------------------------------------------------
  // Enum variants: _parse_enum_variants (odin_plugin.py:143-160)
  // ---------------------------------------------------------------------

  /** The variant one comma part declares: its leading word, unless the
      part is blank, a `//` comment, or starts with a non-word character. */
  function VariantOf(part: string): (r: seq<string>)
    ensures |r| <= 1
    ensures forall i :: 0 <= i < |r| ==> r[i] != [] && AllWord(r[i])
  {
    var p := Strip(part);
    if p == [] || StartsWith(p, "//") then []
    else
      var w := LeadingWord(p);
      if w != [] then [w] else []
  }

  function VariantsOf(parts: seq<string>): (r: seq<string>)
    ensures |r| <= |parts|
    ensures forall i :: 0 <= i < |r| ==> r[i] != [] && AllWord(r[i])
  {
    if parts == [] then [] else VariantOf(parts[0]) + VariantsOf(parts[1..])
  }

  /** `_parse_enum_variants(body_lines)`: at most one variant per comma part,
      each a non-empty word. */
  function EnumVariants(bodyLines: seq<string>): (r: seq<string>)
    ensures forall i :: 0 <= i < |r| ==> r[i] != [] && AllWord(r[i])
  {
    VariantsOf(SplitBalanced(BodyText(bodyLines), ','))
  }

  /** Variants keep declaration order: the variants of consecutive parts
      are the variants of the first parts followed by those of the rest. */
  lemma {:induction false} VariantsInOrder(a: seq<string>, b: seq<string>)
    ensures VariantsOf(a + b) == VariantsOf(a) + VariantsOf(b)
    decreases |a|
  {
    if a == [] {
      assert a + b == b;
    } else {
      assert (a + b)[0] == a[0];
      assert (a + b)[1..] == a[1..] + b;
      VariantsInOrder(a[1..], b);
    }
  }

  /** An explicit value `NAME = value` is ignored: the variant is `NAME`. */
  lemma VariantIgnoresValue(name: string, suffix: string)
    requires name != [] && AllWord(name)
    requires suffix != [] && !IsWordChar(suffix[0]) && !IsSpace(suffix[|suffix| - 1])
    ensures VariantOf(name + suffix) == [name]
  {
    var p := name + suffix;
    assert p[0] == name[0];
    assert Strip(p) == p;
    assert !StartsWith(p, "//") by {
      assert IsWordChar(p[0]);
    }
    LeadingWordOfPrefix(name, suffix);
  }

  lemma {:induction false} LeadingWordOfPrefix(name: string, suffix: string)
    requires AllWord(name)
    requires suffix == [] || !IsWordChar(suffix[0])
    ensures LeadingWord(name + suffix) == name
    decreases |name|
  {
    if name == [] {
      assert name + suffix == suffix;
    } else {
      assert (name + suffix)[1..] == name[1..] + suffix;
      LeadingWordOfPrefix(name[1..], suffix);
    }
  }

  /** `s` is an identifier surrounded by nothing but whitespace. */
  predicate PlainName(s: string) {
    Strip(s) != [] && AllWord(Strip(s))
  }

  /** Every part stripped. */
  function StripAll(parts: seq<string>): (r: seq<string>)
    ensures |r| == |parts| && forall k :: 0 <= k < |parts| ==> r[k] == Strip(parts[k])
  {
    if parts == [] then [] else [Strip(parts[0])] + StripAll(parts[1..])
  }

  /** One variant per non-empty part: when every comma part is a plain
      identifier, the variants are those identifiers, in order. */
  lemma {:induction false} PlainVariants(parts: seq<string>)
    requires forall i :: 0 <= i < |parts| ==> PlainName(parts[i])
    ensures VariantsOf(parts) == StripAll(parts)
    decreases |parts|
  {
    if parts != [] {
      var p := Strip(parts[0]);
      assert !StartsWith(p, "//") by {
        assert IsWordChar(p[0]);
      }
      LeadingWordOfPrefix(p, []);
      assert p + [] == p;
      PlainVariants(parts[1..]);
    }
  }

  // ---------------------------------------------------------------------
  // Procedure parameters: _parse_proc_params (odin_plugin.py:163-198)
  // ---------------------------------------------------------------------

  /** The type text of a parameter tail: cut before the first `=` read at
      depth 0 (a default value) and stripped, or the whole tail. */
  function CutDefault(rest: string): (r: string)
    ensures FindAtDepth0(rest, '=') == -1 ==> r == rest
    ensures FindAtDepth0(rest, '=') != -1 ==> r == Strip(rest[..FindAtDepth0(rest, '=')])
    ensures FindAtDepth0(rest, '=') != -1 ==> |r| < |rest|
  {
    var i := FindAtDepth0(rest, '=');
    if i == -1 then rest else Strip(rest[..i])
  }

  /** How one comma part of a parameter list reads once stripped. */
  datatype ParamPart =
    | NoParam
    | Inferred(name: string)
    | Typed(names: seq<string>, typ: string)
    | Untyped(text: string)

  function ReadParamPart(part: string): ParamPart {
    var p := Strip(part);
    if p == [] then NoParam
    else if Contains(p, ":=") then Inferred(Strip(p[..Find(p, ":=")]))
    else
      var colon := FindColonDepth0(p);
      if colon >= 0 then Typed(NamesIn(Strip(p[..colon])), CutDefault(Strip(p[colon + 1..])))
      else Untyped(p)
  }

  function ReadParamParts(parts: seq<string>): (r: seq<ParamPart>)
    ensures |r| == |parts|
    ensures forall i :: 0 <= i < |parts| ==> r[i] == ReadParamPart(parts[i])
  {
    if parts == [] then [] else [ReadParamPart(parts[0])] + ReadParamParts(parts[1..])
  }

  /** The comma parts of a parameter list, read. */
  function ParamParts(paramStr: string): seq<ParamPart> {
    ReadParamParts(SplitBalanced(Strip(paramStr), ','))
  }

  /** Every name of `names` with the type `typ`. */
  function WithType(names: seq<string>, typ: string): (r: seq<Param>)
    ensures |r| == |names|
    ensures forall i :: 0 <= i < |r| ==> r[i] == Param(names[i], typ)
  {
    if names == [] then [] else [Param(names[0], typ)] + WithType(names[1..], typ)
  }

  /** The parameters one part yields in the code as written: an `Untyped`
      part yields none. */
  function ParamsOfPart(p: ParamPart): seq<Param> {
    match p
    case NoParam => []
    case Inferred(name) => [Param(name, [])]
    case Typed(names, typ) => WithType(names, typ)
    case Untyped(_) => []
  }

  function ParamsOfParts(ps: seq<ParamPart>): seq<Param> {
    if ps == [] then [] else ParamsOfPart(ps[0]) + ParamsOfParts(ps[1..])
  }

  /** `_parse_proc_params(param_str)` exactly as written. Because the text
      is first split at every depth-0 comma, the names of `a, b: int`
      arrive as two parts and the bare `a` yields nothing. */
  function ProcParamsAsWritten(paramStr: string): seq<Param> {
    ParamsOfParts(ParamParts(paramStr))
  }

  /** Parameters with the grouped names carried forward, as the struct
      parser does: a bare name waits for the next typed part and then gets
      its type (or the unknown type '' of a `:=` part). */
  function GroupedParams(ps: seq<ParamPart>, pending: seq<string>): seq<Param>
    decreases |ps|
  {
    if ps == [] then []
    else
      match ps[0]
      case NoParam => GroupedParams(ps[1..], pending)
      case Inferred(name) => WithType(pending + [name], []) + GroupedParams(ps[1..], [])
      case Typed(names, typ) => WithType(pending + names, typ) + GroupedParams(ps[1..], [])
      case Untyped(text) => GroupedParams(ps[1..], pending + [text])
  }

  /** The parameter list with comma-grouped names fanned out over their
      shared type. */
  function ProcParams(paramStr: string): seq<Param> {
    GroupedParams(ParamParts(paramStr), [])
  }

  /** Every comma part of a parameter list carries its own colon or `:=`
      (or is blank). */
  predicate NoBareName(paramStr: string) {
    forall i :: 0 <= i < |ParamParts(paramStr)| ==> !ParamParts(paramStr)[i].Untyped?
  }

  /** An empty or blank parameter list has no parameters, read either
      way. */
  lemma EmptyParamList(paramStr: string)
    requires Strip(paramStr) == []
    ensures ProcParamsAsWritten(paramStr) == [] && ProcParams(paramStr) == []
  {
    assert ParamParts(paramStr) == [];
  }

  /** Where no part is a bare name, the grouped parser and
      `_parse_proc_params` as written read the same parameters. */
  lemma ProcParamsAgree(paramStr: string)
    requires NoBareName(paramStr)
    ensures ProcParams(paramStr) == ProcParamsAsWritten(paramStr)
  {
    GroupedAgreesWhenUngrouped(ParamParts(paramStr));
  }

  function UntypedNames(ps: seq<ParamPart>): (r: seq<string>)
    requires forall i :: 0 <= i < |ps| ==> ps[i].Untyped?
    ensures |r| == |ps| && forall i :: 0 <= i < |ps| ==> r[i] == ps[i].text
  {
    if ps == [] then [] else [ps[0].text] + UntypedNames(ps[1..])
  }

  /** Untyped parts only add to the waiting names. */
  lemma {:induction false} UntypedPartsWait(bare: seq<ParamPart>, rest: seq<ParamPart>, pending: seq<string>)
    requires forall i :: 0 <= i < |bare| ==> bare[i].Untyped?
    ensures GroupedParams(bare + rest, pending) == GroupedParams(rest, pending + UntypedNames(bare))
    decreases |bare|
  {
    if bare == [] {
      assert bare + rest == rest;
      assert pending + UntypedNames(bare) == pending;
    } else {
      assert (bare + rest)[0] == bare[0];
      assert (bare + rest)[1..] == bare[1..] + rest;
      UntypedPartsWait(bare[1..], rest, pending + [bare[0].text]);
      assert pending + [bare[0].text] + UntypedNames(bare[1..]) == pending + UntypedNames(bare);
    }
  }

  /** The grouped parser gives every name of a group `a, b, c: T` the type
      `T`, in order, and then carries on with the next group. */
  lemma GroupedParamsShareType(bare: seq<ParamPart>, decl: ParamPart, more: seq<ParamPart>, pending: seq<string>)
    requires forall i :: 0 <= i < |bare| ==> bare[i].Untyped?
    requires decl.Typed?
    ensures GroupedParams(bare + [decl] + more, pending)
         == WithType(pending + UntypedNames(bare) + decl.names, decl.typ) + GroupedParams(more, [])
  {
    assert bare + [decl] + more == bare + ([decl] + more);
    UntypedPartsWait(bare, [decl] + more, pending);
    assert ([decl] + more)[0] == decl && ([decl] + more)[1..] == more;
  }

  /** Where every part carries its own colon (or `:=`), the grouped parser
      and the code as written agree. */
  lemma {:induction false} GroupedAgreesWhenUngrouped(ps: seq<ParamPart>)
    requires forall i :: 0 <= i < |ps| ==> !ps[i].Untyped?
    ensures GroupedParams(ps, []) == ParamsOfParts(ps)
    decreases |ps|
  {
    if ps != [] {
      GroupedAgreesWhenUngrouped(ps[1..]);
      match ps[0]
      case NoParam =>
      case Inferred(name) => assert [] + [name] == [name];
      case Typed(names, typ) => assert [] + names == names;
    }
  }

  /** As written, the names before the last one of a group are lost:
      parts that carry no colon contribute nothing. */
  lemma {:induction false} AsWrittenDropsGroupedNames(bare: seq<ParamPart>, decl: ParamPart)
    requires forall i :: 0 <= i < |bare| ==> bare[i].Untyped?
    ensures ParamsOfParts(bare + [decl]) == ParamsOfPart(decl)
    decreases |bare|
  {
    if bare == [] {
      assert bare + [decl] == [decl];
    } else {
      assert (bare + [decl])[1..] == bare[1..] + [decl];
      AsWrittenDropsGroupedNames(bare[1..], decl);
    }
  }

  /** A non-empty run of word characters: an identifier. */
  predicate Ident(w: string) {
    w != [] && AllWord(w)
  }

  lemma IdentFacts(w: string)
    requires Ident(w)
    ensures Strip(w) == w
    ensures Plain(w, ',')
    ensures ':' !in w && '=' !in w && ',' !in w
    ensures Depth(w) == 0
  {
    assert !IsSpace(w[0]) && !IsSpace(w[|w| - 1]);
    PlainDepth(w, ',');
  }

  lemma NoOccurrence(s: string, sub: string)
    requires sub != [] && sub[0] !in s
    ensures !Contains(s, sub)
  {
    forall i | OccursAt(s, sub, i) ensures false {
    }
  }

  lemma IdentNames(w: string)
    requires Ident(w)
    ensures NamesIn(w) == [w]
  {
    IdentFacts(w);
    assert SplitChar(w, ',') == [w];
    assert StrippedNonEmpty([w]) == [Strip(w)] + StrippedNonEmpty([]);
  }

  /** A bare identifier part reads as an untyped name. */
  lemma IdentParamPart(w: string)
    requires Ident(w)
    ensures ReadParamPart(w) == Untyped(w)
  {
    IdentFacts(w);
    NoOccurrence(w, ":=");
    assert FindColonDepth0(w) == -1 by {
      forall j | 0 <= j < |w| ensures !AtDepth0(w, ':', j) {
      }
    }
  }

  lemma StripLeadingSpace(x: string)
    requires x != [] && !IsSpace(x[0]) && !IsSpace(x[|x| - 1])
    ensures Strip(" " + x) == x
  {
    assert (" " + x)[1..] == x;
  }

  lemma DeclarationHasNoWalrus(b: string, t: string)
    requires Ident(b) && Ident(t)
    ensures !Contains(b + ": " + t, ":=")
  {
    var p := b + ": " + t;
    assert forall i :: 0 <= i < |p| && p[i] == ':' ==> i == |b|;
    forall i | 0 <= i && i + 2 <= |p| ensures !OccursAt(p, ":=", i) {
      if i == |b| {
        assert p[i..i + 2][1] == ' ';
      } else {
        assert p[i..i + 2][0] != ':';
      }
    }
  }

  lemma DeclarationColon(b: string, t: string)
    requires Ident(b) && Ident(t)
    ensures FindColonDepth0(b + ": " + t) == |b|
    ensures (b + ": " + t)[..|b|] == b
    ensures (b + ": " + t)[|b| + 1..] == " " + t
  {
    var p := b + ": " + t;
    IdentFacts(b);
    assert p[..|b|] == b;
    assert AtDepth0(p, ':', |b|);
    forall j | 0 <= j < |b| ensures !AtDepth0(p, ':', j) {
      assert p[j] == b[j];
    }
    assert p[|b| + 1..] == " " + t;
  }

  lemma IdentHasNoDefault(t: string)
    requires Ident(t)
    ensures CutDefault(t) == t
  {
    IdentFacts(t);
    forall j | 0 <= j < |t| ensures !AtDepth0(t, '=', j) {
    }
  }

  /** The part ` b: t` reads as the name `b` of type `t`. */
  lemma TypedParamPart(b: string, t: string)
    requires Ident(b) && Ident(t)
    ensures ReadParamPart(" " + b + ": " + t) == Typed([b], t)
  {
    IdentFacts(b);
    IdentFacts(t);
    var p := b + ": " + t;
    assert " " + b + ": " + t == " " + p;
    assert p[0] == b[0] && p[|p| - 1] == t[|t| - 1];
    StripLeadingSpace(p);
    DeclarationHasNoWalrus(b, t);
    DeclarationColon(b, t);
    IdentNames(b);
    StripLeadingSpace(t);
    IdentHasNoDefault(t);
  }

  lemma WalrusPair(s: string, i: int)
    ensures OccursAt(s, ":=", i) <==> 0 <= i && i + 2 <= |s| && s[i] == ':' && s[i + 1] == '='
  {
    if 0 <= i && i + 2 <= |s| {
      assert s[i..i + 2] == [s[i], s[i + 1]];
    }
  }

  /** In `n := x` the first `:=` follows the name and a blank. */
  lemma WalrusAfterName(n: string, x: string)
    requires Ident(n)
    ensures Contains(n + " := " + x, ":=")
    ensures Find(n + " := " + x, ":=") == |n| + 1
    ensures (n + " := " + x)[..|n| + 1] == n + " "
  {
    IdentFacts(n);
    var p := n + " := " + x;
    WalrusPair(p, |n| + 1);
    forall i | i < |n| + 1 ensures !OccursAt(p, ":=", i) {
      WalrusPair(p, i);
    }
    assert p[..|n| + 1] == n + " ";
  }

  /** The part `n := x` reads as the name `n` of unknown type. */
  lemma InferredParamPart(n: string, x: string)
    requires Ident(n) && x != [] && !IsSpace(x[|x| - 1])
    ensures ReadParamPart(n + " := " + x) == Inferred(n)
  {
    IdentFacts(n);
    var p := n + " := " + x;
    assert p[0] == n[0] && p[|p| - 1] == x[|x| - 1];
    StripNonBlankEnds(p);
    WalrusAfterName(n, x);
    StripTrailingSpace(n);
    ReadInferredPart(p, p, |n| + 1, n);
  }

  lemma ReadInferredPart(part: string, p: string, at: int, name: string)
    requires Strip(part) == p && p != [] && Contains(p, ":=")
    requires Find(p, ":=") == at && 0 <= at <= |p| && Strip(p[..at]) == name
    ensures ReadParamPart(part) == Inferred(name)
  {
  }

  /** What makes `part` read as the names `names` of type `typ`: once
      stripped it is `p`, which has no `:=` and whose first depth-0 colon
      at `colon` separates the names from the type. */
  predicate TypedPartAt(part: string, p: string, colon: int, names: seq<string>, typ: string) {
    && Strip(part) == p && p != [] && !Contains(p, ":=")
    && FindColonDepth0(p) == colon && 0 <= colon < |p|
    && NamesIn(Strip(p[..colon])) == names && CutDefault(Strip(p[colon + 1..])) == typ
  }

  lemma ReadTypedPart(part: string, p: string, colon: int, names: seq<string>, typ: string)
    requires TypedPartAt(part, p, colon, names, typ)
    ensures ReadParamPart(part) == Typed(names, typ)
  {
  }

  /** A whole parameter list `n := x`, where `x` (the default value) has no
      comma outside brackets, is the one parameter `n` of unknown type,
      read either way (odin_plugin.py:172-177). */
  lemma {:induction false} InferredParam(n: string, x: string)
    requires Ident(n)
    requires x != [] && !IsSpace(x[|x| - 1]) && NoCutInside(x, ',')
    ensures ProcParamsAsWritten(" " + n + " := " + x) == [Param(n, [])]
    ensures ProcParams(" " + n + " := " + x) == [Param(n, [])]
  {
    InferredParts(n, x);
    assert ParamsOfParts([Inferred(n)]) == [Param(n, [])] + ParamsOfParts([]);
    assert GroupedParams([Inferred(n)], []) == WithType([] + [n], []) + GroupedParams([], []);
    assert [] + [n] == [n];
  }

  /** The list ` n := x` is the one part `n := x`. */
  lemma InferredParts(n: string, x: string)
    requires Ident(n)
    requires x != [] && !IsSpace(x[|x| - 1]) && NoCutInside(x, ',')
    ensures ParamParts(" " + n + " := " + x) == [Inferred(n)]
  {
    var p := n + " := " + x;
    InferredStrip(n, x);
    InferredSplit(n, x);
    InferredParamPart(n, x);
    var r := ReadParamParts([p]);
    assert |r| == 1 && r[0] == ReadParamPart(p);
  }

  lemma InferredStrip(n: string, x: string)
    requires Ident(n) && x != [] && !IsSpace(x[|x| - 1])
    ensures Strip(" " + n + " := " + x) == n + " := " + x
  {
    var p := n + " := " + x;
    BlankFront(" ", n, " := ", x);
    assert p[0] == n[0] && p[|p| - 1] == x[|x| - 1];
    assert IsWordChar(n[0]);
    StripLeadingSpace(p);
  }

  /** `a + b + c + d` regrouped behind its first piece. */
  lemma BlankFront(a: string, b: string, c: string, d: string)
    ensures a + b + c + d == a + (b + c + d)
  {
  }

  lemma InferredSplit(n: string, x: string)
    requires Ident(n) && x != [] && NoCutInside(x, ',')
    ensures SplitBalanced(n + " := " + x, ',') == [n + " := " + x]
  {
    var a := n + " := ";
    IdentFacts(n);
    assert Plain(a, ',');
    NoCutAfterPlain(a, x, ',');
    SplitBalancedUncut(a + x, ',');
  }

  /** `b: t = d` holds no `:=` when neither `t` nor `d` does. */
  lemma DefaultHasNoWalrus(b: string, t: string, d: string)
    requires Ident(b) && t != [] && !IsSpace(t[|t| - 1])
    requires !Contains(t, ":=") && !Contains(d, ":=")
    ensures !Contains(b + ": " + t + " = " + d, ":=")
  {
    IdentFacts(b);
    var p := b + ": " + t + " = " + d;
    var k := |b| + 2;
    var m := k + |t| + 3;
    forall i | 0 <= i && i + 2 <= |p| ensures !OccursAt(p, ":=", i) {
      WalrusPair(p, i);
      if k <= i && i + 2 <= k + |t| {
        WalrusPair(t, i - k);
        assert p[i] == t[i - k] && p[i + 1] == t[i - k + 1];
      } else if m <= i {
        WalrusPair(d, i - m);
        assert p[i] == d[i - m] && p[i + 1] == d[i - m + 1];
      } else if i < |b| {
        assert p[i] == b[i];
      } else if i == |b| {
        assert p[i + 1] == ' ';
      } else if i == k + |t| - 1 {
        assert p[i + 1] == ' ';
      } else {
        assert p[i] != ':';
      }
    }
  }

  /** In `b: t = d` the first colon read at depth 0 ends the name. */
  lemma DefaultColon(b: string, rest: string)
    requires Ident(b)
    ensures FindColonDepth0(b + ": " + rest) == |b|
    ensures (b + ": " + rest)[..|b|] == b
    ensures (b + ": " + rest)[|b| + 1..] == " " + rest
  {
    var p := b + ": " + rest;
    IdentFacts(b);
    assert p[..|b|] == b;
    assert AtDepth0(p, ':', |b|);
    forall j | 0 <= j < |b| ensures !AtDepth0(p, ':', j) {
      assert p[j] == b[j];
    }
    assert p[|b| + 1..] == " " + rest;
  }

  /** The default value after a balanced type is cut off: `t = d` gives
      the type `t`. */
  lemma DefaultCut(t: string, d: string)
    requires t != [] && !IsSpace(t[0]) && !IsSpace(t[|t| - 1])
    requires Depth(t) == 0 && FindAtDepth0(t, '=') == -1
    ensures CutDefault(t + " = " + d) == t
  {
    var rest := t + " = " + d;
    assert rest[..|t| + 1] == t + " ";
    DepthSnoc(t, ' ');
    assert AtDepth0(rest, '=', |t| + 1);
    forall j | 0 <= j < |t| + 1 ensures !AtDepth0(rest, '=', j) {
      if j < |t| {
        assert rest[..j] == t[..j] && rest[j] == t[j];
        assert !AtDepth0(t, '=', j);
      }
    }
    var r := FindAtDepth0(rest, '=');
    assert r == |t| + 1;
    StripTrailingSpace(t);
  }

  /** The part ` b: t = d` reads as the name `b` of type `t`: the default
      value `d` is dropped, provided `t` is balanced and has no `=` of its
      own outside brackets (odin_plugin.py:178-193). */
  lemma DefaultParam(b: string, t: string, d: string)
    requires Ident(b)
    requires t != [] && !IsSpace(t[0]) && !IsSpace(t[|t| - 1])
    requires Depth(t) == 0 && FindAtDepth0(t, '=') == -1 && !Contains(t, ":=")
    requires d != [] && !IsSpace(d[|d| - 1]) && !Contains(d, ":=")
    ensures ReadParamPart(" " + b + ": " + t + " = " + d) == Typed([b], t)
  {
    var part := " " + b + ": " + t + " = " + d;
    var p := b + ": " + t + " = " + d;
    DefaultPartFacts(b, t, d, part, p);
    ReadTypedPart(part, p, |b|, [b], t);
  }

  lemma DefaultPartFacts(b: string, t: string, d: string, part: string, p: string)
    requires Ident(b)
    requires t != [] && !IsSpace(t[0]) && !IsSpace(t[|t| - 1])
    requires Depth(t) == 0 && FindAtDepth0(t, '=') == -1 && !Contains(t, ":=")
    requires d != [] && !IsSpace(d[|d| - 1]) && !Contains(d, ":=")
    requires part == " " + b + ": " + t + " = " + d && p == b + ": " + t + " = " + d
    ensures TypedPartAt(part, p, |b|, [b], t)
  {
    var rest := t + " = " + d;
    DefaultShape(b, t, d, part, p, rest);
    DefaultHasNoWalrus(b, t, d);
    DefaultHead(b, rest, p);
    DefaultTail(t, d, rest);
  }

  lemma DefaultShape(b: string, t: string, d: string, part: string, p: string, rest: string)
    requires Ident(b) && t != [] && d != [] && !IsSpace(d[|d| - 1])
    requires part == " " + b + ": " + t + " = " + d && p == b + ": " + t + " = " + d
    requires rest == t + " = " + d
    ensures p == b + ": " + rest && Strip(part) == p
  {
    assert p == b + ": " + rest;
    assert part == " " + p;
    assert p[0] == b[0] && p[|p| - 1] == d[|d| - 1];
    assert !IsSpace(b[0]);
    StripLeadingSpace(p);
  }

  lemma DefaultHead(b: string, rest: string, p: string)
    requires Ident(b) && p == b + ": " + rest
    ensures FindColonDepth0(p) == |b| && |b| < |p|
    ensures NamesIn(Strip(p[..|b|])) == [b] && p[|b| + 1..] == " " + rest
  {
    IdentFacts(b);
    DefaultColon(b, rest);
    IdentNames(b);
  }

  lemma DefaultTail(t: string, d: string, rest: string)
    requires t != [] && !IsSpace(t[0]) && !IsSpace(t[|t| - 1])
    requires Depth(t) == 0 && FindAtDepth0(t, '=') == -1
    requires d != [] && !IsSpace(d[|d| - 1])
    requires rest == t + " = " + d
    ensures CutDefault(Strip(" " + rest)) == t
  {
    assert rest[0] == t[0] && rest[|rest| - 1] == d[|d| - 1];
    StripLeadingSpace(rest);
    DefaultCut(t, d);
  }

  lemma DeclarationIsPlain(b: string, t: string)
    requires Ident(b) && Ident(t)
    ensures Plain(" " + b + ": " + t, ',')
  {
    IdentFacts(b);
    IdentFacts(t);
  }

  lemma GroupIsStripped(a: string, b: string, t: string)
    requires Ident(a) && Ident(t)
    ensures Strip(a + ", " + b + ": " + t) == a + ", " + b + ": " + t
  {
    var s := a + ", " + b + ": " + t;
    assert s[0] == a[0] && s[|s| - 1] == t[|t| - 1];
    assert !IsSpace(a[0]) && !IsSpace(t[|t| - 1]);
    StripNonBlankEnds(s);
  }

  lemma StripNonBlankEnds(s: string)
    requires s != [] && !IsSpace(s[0]) && !IsSpace(s[|s| - 1])
    ensures Strip(s) == s
  {
  }

  lemma GroupSplit(a: string, b: string, t: string)
    requires Ident(a) && Ident(b) && Ident(t)
    ensures SplitBalanced(a + ", " + b + ": " + t, ',') == [a, " " + b + ": " + t]
  {
    var rest := " " + b + ": " + t;
    assert a + ", " + b + ": " + t == a + [','] + rest;
    IdentFacts(a);
    SplitBalancedPlainHead(a, rest, ',');
    DeclarationIsPlain(b, t);
    SplitBalancedPlain(rest, ',');
  }

  /** `a, b: t` is cut into the parts `a` and ` b: t`. */
  lemma GroupParamParts(a: string, b: string, t: string)
    requires Ident(a) && Ident(b) && Ident(t)
    ensures ParamParts(a + ", " + b + ": " + t) == [Untyped(a), Typed([b], t)]
  {
    GroupIsStripped(a, b, t);
    GroupSplit(a, b, t);
    IdentParamPart(a);
    TypedParamPart(b, t);
  }

  /** The code as written reads `proc(a, b: t)` as having the single
      parameter `b`. */
  lemma AsWrittenLosesGroupedName(a: string, b: string, t: string)
    requires Ident(a) && Ident(b) && Ident(t)
    ensures ProcParamsAsWritten(a + ", " + b + ": " + t) == [Param(b, t)]
  {
    GroupParamParts(a, b, t);
    var ps := [Untyped(a), Typed([b], t)];
    assert ProcParamsAsWritten(a + ", " + b + ": " + t) == ParamsOfParts(ps);
    assert ParamsOfParts(ps) == [Param(b, t)] by {
      AsWrittenDropsGroupedNames([Untyped(a)], Typed([b], t));
      assert [Untyped(a)] + [Typed([b], t)] == ps;
    }
  }

  /** The grouped parser reads `proc(a, b: t)` as the two parameters `a`
      and `b`, both of type `t`. */
  lemma GroupedKeepsGroupedName(a: string, b: string, t: string)
    requires Ident(a) && Ident(b) && Ident(t)
    ensures ProcParams(a + ", " + b + ": " + t) == [Param(a, t), Param(b, t)]
  {
    GroupParamParts(a, b, t);
    GroupedParamsShareType([Untyped(a)], Typed([b], t), [], []);
    assert [Untyped(a)] + [Typed([b], t)] + [] == [Untyped(a), Typed([b], t)];
    assert [] + UntypedNames([Untyped(a)]) + [b] == [a, b];
  }

  /** A parameter list of two typed names, each followed by a comma and
      written with blanks around it, as a header spread over several lines
      reads once its lines are joined: `proc( a: t1, b: t2, )` has the
      parameters `(a, t1)` and `(b, t2)`, and the final comma adds none. */
  lemma TwoTypedParams(a: string, t1: string, b: string, t2: string)
    requires Ident(a) && Ident(t1) && Ident(b) && Ident(t2)
    ensures ProcParams(" " + a + ": " + t1 + ", " + b + ": " + t2 + ", ") == [Param(a, t1), Param(b, t2)]
  {
    var x := a + ": " + t1;
    var y := " " + b + ": " + t2;
    var inner := x + [','] + (y + [','] + []);
    TwoTypedRegroup(a, t1, b, t2, x, y, inner);
    IdentFacts(a);
    assert inner[0] == a[0] && inner[|inner| - 1] == ',';
    StripPadded(inner);
    TwoTypedSplit(x, y, a, t1, b, t2);
    TwoTypedParts(x, y, a, t1, b, t2);
  }

  lemma TwoTypedRegroup(a: string, t1: string, b: string, t2: string, x: string, y: string, inner: string)
    requires x == a + ": " + t1 && y == " " + b + ": " + t2 && inner == x + [','] + (y + [','] + [])
    ensures " " + a + ": " + t1 + ", " + b + ": " + t2 + ", " == " " + inner + " "
  {
  }

  /** One blank on each side makes no difference to `strip`. */
  lemma StripPadded(inner: string)
    requires inner != [] && !IsSpace(inner[0]) && !IsSpace(inner[|inner| - 1])
    ensures Strip(" " + inner + " ") == inner
  {
    assert (" " + inner + " ")[1..] == inner + " ";
    StripTrailingSpace(inner);
  }

  lemma TwoTypedSplit(x: string, y: string, a: string, t1: string, b: string, t2: string)
    requires Ident(a) && Ident(t1) && Ident(b) && Ident(t2)
    requires x == a + ": " + t1 && y == " " + b + ": " + t2
    ensures SplitBalanced(x + [','] + (y + [','] + []), ',') == [x, y]
  {
    TypedIsPlain(a, t1);
    DeclarationIsPlain(b, t2);
    LastPartTrailingComma(y);
    SplitBalancedPlainHead(x, y + [','] + [], ',');
  }

  lemma TypedIsPlain(a: string, t: string)
    requires Ident(a) && Ident(t)
    ensures Plain(a + ": " + t, ',')
  {
    IdentFacts(a);
    IdentFacts(t);
  }

  /** A final comma after a plain part adds no part. */
  lemma LastPartTrailingComma(y: string)
    requires Plain(y, ',') && Delta(',') == 0
    ensures SplitBalanced(y + [','] + [], ',') == [y]
  {
    SplitBalancedPlainHead(y, [], ',');
    assert SplitBalanced([], ',') == [];
  }

  lemma TwoTypedParts(x: string, y: string, a: string, t1: string, b: string, t2: string)
    requires Ident(a) && Ident(t1) && Ident(b) && Ident(t2)
    requires x == a + ": " + t1 && y == " " + b + ": " + t2
    ensures GroupedParams(ReadParamParts([x, y]), []) == [Param(a, t1), Param(b, t2)]
  {
    UnpaddedTypedPart(a, t1, x);
    TypedParamPart(b, t2);
    ReadTwoParts(x, y, Typed([a], t1), Typed([b], t2));
    GroupedTwoTyped(a, t1, b, t2);
  }

  lemma UnpaddedTypedPart(a: string, t: string, x: string)
    requires Ident(a) && Ident(t) && x == a + ": " + t
    ensures ReadParamPart(x) == Typed([a], t)
  {
    PaddedSameStrip(a, t, x);
    TypedParamPart(a, t);
    SameStripSamePart(x, " " + a + ": " + t);
  }

  lemma PaddedSameStrip(a: string, t: string, x: string)
    requires Ident(a) && Ident(t) && x == a + ": " + t
    ensures Strip(" " + a + ": " + t) == Strip(x)
  {
    assert !IsSpace(x[0]) && !IsSpace(x[|x| - 1]) by {
      assert x[0] == a[0] && x[|x| - 1] == t[|t| - 1];
      assert IsWordChar(a[0]) && IsWordChar(t[|t| - 1]);
    }
    assert Strip(x) == x;
    assert " " + a + ": " + t == " " + x;
    StripLeadingSpace(x);
  }

  lemma ReadTwoParts(x: string, y: string, p: ParamPart, q: ParamPart)
    requires ReadParamPart(x) == p && ReadParamPart(y) == q
    ensures ReadParamParts([x, y]) == [p, q]
  {
  }

  lemma GroupedTwoTyped(a: string, t1: string, b: string, t2: string)
    ensures GroupedParams([Typed([a], t1), Typed([b], t2)], []) == [Param(a, t1), Param(b, t2)]
  {
    var ps := [Typed([a], t1), Typed([b], t2)];
    assert ps[1..] == [Typed([b], t2)] && ps[1..][1..] == [];
    assert [] + [a] == [a] && [] + [b] == [b];
    assert GroupedParams(ps[1..], []) == WithType([b], t2) + GroupedParams([], []);
    assert GroupedParams(ps, []) == WithType([a], t1) + GroupedParams(ps[1..], []);
  }

  /** A part is read from its stripped text alone. */
  lemma SameStripSamePart(p: string, q: string)
    requires Strip(p) == Strip(q)
    ensures ReadParamPart(p) == ReadParamPart(q)
  {
  }

  // ---------------------------------------------------------------------
  // Procedure signature: _extract_proc_signature (odin_plugin.py:201-252)
  // ---------------------------------------------------------------------

  /** After the keyword `proc` ending at `j`: optional whitespace, an
      optional quoted calling convention with more whitespace, and `(`.
      Returns the index of that `(`. */
  function ParenAfterProc(s: string, j: nat): (r: Option<nat>)
    requires j <= |s|
    ensures r.Some? ==> j <= r.value < |s| && s[r.value] == '('
  {
    var k := SkipSpaces(s, j);
    if k < |s| && s[k] == '(' then Some(k)
    else if k < |s| && s[k] == '"' then
      var q := FindFrom(s, "\"", k + 1);
      if q == -1 then None
      else
        var m := SkipSpaces(s, q + 1);
        if m < |s| && s[m] == '(' then Some(m) else None
    else None
  }

  /** The pattern `proc\s*(?:"[^"]*"\s*)?\(` matched at index `i`: the index
      of the `(` it ends with. */
  function ProcParenAt(s: string, i: nat): (r: Option<nat>)
    ensures r.Some? ==> i + 4 <= r.value < |s| && s[r.value] == '('
  {
    if OccursAt(s, "proc", i) then ParenAfterProc(s, i + 4) else None
  }

  /** `re.search` of that pattern from index `i`: the match that starts
      leftmost, or none when the pattern matches nowhere. */
  function SearchProcParen(s: string, i: nat): (r: Option<nat>)
    ensures r.Some? ==>
      exists k :: (i <= k && ProcParenAt(s, k) == r
                   && forall k' :: i <= k' < k ==> ProcParenAt(s, k').None?)
    ensures r.None? ==> forall k :: i <= k ==> ProcParenAt(s, k).None?
    decreases |s| - i
  {
    if i + 4 > |s| then
      assert forall k :: i <= k ==> !OccursAt(s, "proc", k);
      None
    else if ProcParenAt(s, i).Some? then ProcParenAt(s, i)
    else
      var r := SearchProcParen(s, i + 1);
      assert r.Some? ==>
        exists k :: (i <= k && ProcParenAt(s, k) == r
                     && forall k' :: i <= k' < k ==> ProcParenAt(s, k').None?);
      r
  }

  /** The `(`/`)` depth of `s[lo..hi]`, counting parentheses only. */
  function ParenDepth(s: string, lo: nat, hi: nat): int
    requires lo <= hi <= |s|
    decreases hi - lo
  {
    if lo == hi then 0
    else ParenDepth(s, lo, hi - 1) + (if s[hi - 1] == '(' then 1 else if s[hi - 1] == ')' then -1 else 0)
  }

  /** The `)` at `k` balances the `(` at `start`: the parenthesis depth
      counted from `start` is back at 0 just after it. */
  predicate ClosesAt(s: string, start: nat, k: nat) {
    start <= k < |s| && s[k] == ')' && ParenDepth(s, start, k + 1) == 0
  }

  /** The loop looking for the parenthesis that closes the one at `start`:
      the first `)` at which the depth counted from `start` returns to 0,
      or `start` itself exactly when there is none. */
  function CloseParenFrom(s: string, start: nat, i: nat, depth: int): (r: nat)
    requires start <= i <= |s| && depth == ParenDepth(s, start, i)
    ensures r != start ==> i <= r && ClosesAt(s, start, r)
    ensures r != start ==> forall k :: i <= k < r ==> !ClosesAt(s, start, k)
    ensures r == start ==> forall k :: i <= k < |s| ==> !ClosesAt(s, start, k)
    decreases |s| - i
  {
    if i == |s| then start
    else if s[i] == '(' then CloseParenFrom(s, start, i + 1, depth + 1)
    else if s[i] == ')' then (if depth - 1 == 0 then i else CloseParenFrom(s, start, i + 1, depth - 1))
    else CloseParenFrom(s, start, i + 1, depth)
  }

  /** What `_extract_proc_signature` returns. */
  datatype ProcSig = ProcSig(signature: string, params: seq<Param>, returnType: string)

  /** The return type read from the text after the parameter list: the text
      after `->` up to the first `{`, stripped, with trailing spaces and
      commas removed; empty when there is no `->`. */
  function ReturnTypeOf(afterParams: string): (r: string)
    ensures '{' !in r
    ensures r == [] || (r[|r| - 1] != ' ' && r[|r| - 1] != ',')
    ensures !StartsWith(afterParams, "->") ==> r == []
  {
    if StartsWith(afterParams, "->") then
      var rest := Strip(afterParams[2..]);
      var brace := FindChar(rest, '{');
      var upto := if brace >= 0 then rest[..brace] else rest;
      TrimKeepsOut(upto, '{');
      RStripAny(Strip(upto), {' ', ','})
    else []
  }

  /** Trimming never brings in a character the text did not have. */
  lemma TrimKeepsOut(s: string, c: char)
    requires c !in s
    ensures c !in RStripAny(Strip(s), {' ', ','})
  {
    var t := Strip(s);
    var r := RStripAny(t, {' ', ','});
    forall i | 0 <= i < |r| ensures r[i] != c {
      assert r[i] == t[i];
      assert t[i] in s;
    }
  }

  /** The text of a return type as it can be read back: no `{`, no
      whitespace at either end, and no trailing comma. */
  predicate TypeText(t: string) {
    t != [] && '{' !in t && !IsSpace(t[0]) && !IsSpace(t[|t| - 1]) && t[|t| - 1] != ','
  }

  /** A return type written after `->` reads back whole: at the end of the
      text, before the body's `{`, and before a stray comma. */
  lemma ReturnTypeRoundTrip(t: string, x: string)
    requires TypeText(t)
    ensures ReturnTypeOf("-> " + t) == t
    ensures ReturnTypeOf("-> " + t + " {" + x) == t
    ensures ReturnTypeOf("-> " + t + ", {" + x) == t
  {
    ReturnTypeAtEnd(t);
    ReturnTypeBeforeBrace(t, x);
    ReturnTypeBeforeComma(t, x);
  }

  lemma ReturnTypeAtEnd(t: string)
    requires TypeText(t)
    ensures ReturnTypeOf("-> " + t) == t
  {
    var s := "-> " + t;
    assert s[..2] == "->";
    assert s[2..] == " " + t;
    assert (" " + t)[1..] == t;
    StripAfterSpaces(s[2..], 1);
    RStripKeeps(t, {' ', ','});
  }

  /** The type ends at the blank before the body's `{`. */
  lemma ReturnTypeBeforeBrace(t: string, x: string)
    requires TypeText(t)
    ensures ReturnTypeOf("-> " + t + " {" + x) == t
  {
    var front := t + " {";
    assert "-> " + t + " {" + x == "-> " + front + x;
    assert front[..|front| - 1] == t + " ";
    ReturnTypeUpToBrace(front, x);
    TrimBlank(t);
  }

  /** A stray comma before the body's `{` is trimmed off. */
  lemma ReturnTypeBeforeComma(t: string, x: string)
    requires TypeText(t)
    ensures ReturnTypeOf("-> " + t + ", {" + x) == t
  {
    var front := t + ", {";
    assert "-> " + t + ", {" + x == "-> " + front + x;
    assert front[..|front| - 1] == t + ", ";
    ReturnTypeUpToBrace(front, x);
    TrimComma(t);
  }

  /** After `-> `, a front that ends in its first `{` gives the trimmed
      text before that `{`, whatever follows. */
  lemma ReturnTypeUpToBrace(front: string, x: string)
    requires |front| >= 2 && !IsSpace(front[0]) && front[|front| - 1] == '{' && '{' !in front[..|front| - 1]
    ensures ReturnTypeOf("-> " + front + x) == RStripAny(Strip(front[..|front| - 1]), {' ', ','})
  {
    var s := "-> " + front + x;
    ArrowThenFront(front, x);
    var b := |front| - 1;
    BraceEndsFront(front, x);
    ReturnTypeAt(s, b, front[..b]);
  }

  /** `-> ` followed by a text: the arrow is there, and the rest strips
      as the text does. */
  lemma ArrowThenFront(front: string, x: string)
    ensures StartsWith("-> " + front + x, "->")
    ensures Strip(("-> " + front + x)[2..]) == Strip(front + x)
  {
    var s := "-> " + front + x;
    assert s[..2] == "->";
    assert s[2..] == " " + (front + x);
    assert (" " + (front + x))[1..] == front + x;
    StripAfterSpaces(s[2..], 1);
  }

  /** The first `{` of the stripped text is the one that ends the front. */
  lemma BraceEndsFront(front: string, x: string)
    requires |front| >= 2 && !IsSpace(front[0]) && front[|front| - 1] == '{' && '{' !in front[..|front| - 1]
    ensures FindChar(Strip(front + x), '{') == |front| - 1
    ensures Strip(front + x)[..|front| - 1] == front[..|front| - 1]
  {
    StripKeepsFront(front, x);
    var rest := Strip(front + x);
    var b := |front| - 1;
    assert rest[..b] == front[..b];
    FindCharAt(rest, '{', b);
  }

  /** `ReturnTypeOf` read off where the arrow, the brace and the text
      before it are known. */
  lemma ReturnTypeAt(s: string, b: nat, upto: string)
    requires StartsWith(s, "->") && FindChar(Strip(s[2..]), '{') == b
    requires b <= |Strip(s[2..])| && Strip(s[2..])[..b] == upto
    ensures ReturnTypeOf(s) == RStripAny(Strip(upto), {' ', ','})
  {
  }

  /** `t ` trims to `t`. */
  lemma TrimBlank(t: string)
    requires TypeText(t)
    ensures RStripAny(Strip(t + " "), {' ', ','}) == t
  {
    StripTrailingSpace(t);
    RStripKeeps(t, {' ', ','});
  }

  /** `t, ` trims to `t`. */
  lemma TrimComma(t: string)
    requires TypeText(t)
    ensures RStripAny(Strip(t + ", "), {' ', ','}) == t
  {
    var tc := t + ",";
    assert (t + ", ") == tc + " ";
    StripTrailingSpace(tc);
    var r := RStripAny(tc, {' ', ','});
    assert tc[|t| - 1] !in {' ', ','};
    assert |r| == |t|;
    assert r == tc[..|t|] == t;
  }

  /** One trailing blank after a text that ends in a non-space is stripped. */
  lemma StripTrailingSpace(t: string)
    requires t != [] && !IsSpace(t[0]) && !IsSpace(t[|t| - 1])
    ensures Strip(t + " ") == t
  {
    assert (t + " ")[..|t|] == t;
  }

  /** A text whose last character is not in `chars` keeps its tail. */
  lemma RStripKeeps(t: string, chars: set<char>)
    requires t == [] || t[|t| - 1] !in chars
    ensures RStripAny(t, chars) == t
  {
  }

  /** Where the parameter list sits: the index of its `(` and of the `)`
      that closes it, or the `(` index twice when it is never closed. */
  datatype ParamSpan = ParamSpan(open: nat, close: nat)

  function ParamSpanOf(full: string): (r: Option<ParamSpan>)
    ensures r.None? <==> SearchProcParen(full, 0).None?
    ensures r.Some? ==> r.value.open == SearchProcParen(full, 0).value
    ensures r.Some? ==> r.value.open < |full| && full[r.value.open] == '('
    ensures r.Some? && r.value.close != r.value.open ==>
      && ClosesAt(full, r.value.open, r.value.close)
      && forall k :: r.value.open <= k < r.value.close ==> !ClosesAt(full, r.value.open, k)
    ensures r.Some? && r.value.close == r.value.open ==>
      forall k :: r.value.open <= k < |full| ==> !ClosesAt(full, r.value.open, k)
  {
    match SearchProcParen(full, 0)
    case None => None
    case Some(open) => Some(ParamSpan(open, CloseParenFrom(full, open, open, 0)))
  }

  /** Where the displayed signature ends: at the first `{` at or after
      `from`, or at the end of the text. */
  function SignatureEnd(full: string, from: nat): (n: nat)
    ensures n <= |full|
    ensures n == |full| || (from <= n && full[n] == '{')
    ensures forall k :: from <= k < n ==> full[k] != '{'
  {
    var brace := FindFrom(full, "{", from);
    if brace >= 0 then
      assert full[brace..brace + 1] == "{";
      forall k | from <= k < brace ensures full[k] != '{' {
        assert !OccursAt(full, "{", k);
        assert full[k..k + 1] == [full[k]];
      }
      brace
    else
      forall k | from <= k < |full| ensures full[k] != '{' {
        assert !OccursAt(full, "{", k);
        assert full[k..k + 1] == [full[k]];
      }
      |full|
  }

  /** `_extract_proc_signature(full_text)`, as written: the parameters are
      read by `_parse_proc_params` as it stands. Without a `proc(` the text
      comes back whole with no parameters and no return type. Otherwise
      the parameters are read between the `(` and its matching `)`, the
      return type has no `{` and no trailing space or comma, and the
      signature is the stripped text up to the first `{` after the
      parameters. */
  function ExtractProcSignature(full: string): (r: ProcSig)
    ensures ParamSpanOf(full).None? ==> r == ProcSig(full, [], [])
    ensures ParamSpanOf(full).Some? ==>
      r.params == ProcParamsAsWritten(Slice(full, ParamSpanOf(full).value.open + 1, ParamSpanOf(full).value.close))
    ensures ParamSpanOf(full).Some? ==>
      r.signature == Strip(full[..SignatureEnd(full, ParamSpanOf(full).value.close)])
    ensures ParamSpanOf(full).Some? ==>
      r.returnType == ReturnTypeOf(Strip(full[ParamSpanOf(full).value.close + 1..]))
  {
    match ParamSpanOf(full)
    case None => ProcSig(full, [], [])
    case Some(span) =>
      ProcSig(Strip(full[..SignatureEnd(full, span.close)]),
              ProcParamsAsWritten(Slice(full, span.open + 1, span.close)),
              ReturnTypeOf(Strip(full[span.close + 1..])))
  }

  /** The return type an extraction reports has no `{` and does not end
      in a space or a comma. */
  lemma ExtractedReturnShape(full: string)
    ensures '{' !in ExtractProcSignature(full).returnType
    ensures var t := ExtractProcSignature(full).returnType; t == [] || (t[|t| - 1] != ' ' && t[|t| - 1] != ',')
  {
    if ParamSpanOf(full).Some? {
      ReturnShapeOf(ExtractProcSignature(full).returnType, Strip(full[ParamSpanOf(full).value.close + 1..]));
    }
  }

  lemma ReturnShapeOf(t: string, after: string)
    requires t == ReturnTypeOf(after)
    ensures '{' !in t && (t == [] || (t[|t| - 1] != ' ' && t[|t| - 1] != ','))
  {
  }

  /** The signature extractor with the grouped-name correction: the same
      signature and return type, with the parameters read by `ProcParams`. */
  function ExtractProcSignatureFixed(full: string): (r: ProcSig)
    ensures r.signature == ExtractProcSignature(full).signature
    ensures r.returnType == ExtractProcSignature(full).returnType
    ensures ParamSpanOf(full).None? ==> r.params == []
    ensures ParamSpanOf(full).Some? ==>
      r.params == ProcParams(Slice(full, ParamSpanOf(full).value.open + 1, ParamSpanOf(full).value.close))
  {
    var sig := ExtractProcSignature(full);
    if ParamSpanOf(full).None? then sig
    else sig.(params := ProcParams(Slice(full, ParamSpanOf(full).value.open + 1, ParamSpanOf(full).value.close)))
  }

  /** The corrected extractor agrees with the code as written when no
      part of the parameter list is a bare name (and when there is no
      parameter list). */
  lemma FixedSignatureAgrees(full: string)
    requires ParamSpanOf(full).Some? ==>
      NoBareName(Slice(full, ParamSpanOf(full).value.open + 1, ParamSpanOf(full).value.close))
    ensures ExtractProcSignatureFixed(full) == ExtractProcSignature(full)
  {
    FixedParamsAgree(full);
    SameParts(ExtractProcSignatureFixed(full), ExtractProcSignature(full));
  }

  /** The parameter half of `FixedSignatureAgrees`. */
  lemma FixedParamsAgree(full: string)
    requires ParamSpanOf(full).Some? ==>
      NoBareName(Slice(full, ParamSpanOf(full).value.open + 1, ParamSpanOf(full).value.close))
    ensures ExtractProcSignatureFixed(full).params == ExtractProcSignature(full).params
  {
    if ParamSpanOf(full).Some? {
      FixedParamsAt(full);
      WrittenParamsAt(full);
      ProcParamsAgree(Slice(full, ParamSpanOf(full).value.open + 1, ParamSpanOf(full).value.close));
    }
  }

  /** The corrected extractor's parameters, read at the span. */
  lemma FixedParamsAt(full: string)
    requires ParamSpanOf(full).Some?
    ensures ExtractProcSignatureFixed(full).params ==
      ProcParams(Slice(full, ParamSpanOf(full).value.open + 1, ParamSpanOf(full).value.close))
  {
  }

  /** The as-written extractor's parameters, read at the span. */
  lemma WrittenParamsAt(full: string)
    requires ParamSpanOf(full).Some?
    ensures ExtractProcSignature(full).params ==
      ProcParamsAsWritten(Slice(full, ParamSpanOf(full).value.open + 1, ParamSpanOf(full).value.close))
  {
  }

  /** Two signatures with the same three parts are the same. */
  lemma SameParts(a: ProcSig, b: ProcSig)
    requires a.signature == b.signature && a.params == b.params && a.returnType == b.returnType
    ensures a == b
  {
  }

  // ---------------------------------------------------------------------
  // Reading back a whole one-line procedure declaration
  // ---------------------------------------------------------------------

  /** `name :: proc(params) -> ret {` followed by anything. */
  function ProcLine(name: string, params: string, ret: string, x: string): string {
    name + " :: proc(" + params + ") -> " + ret + " {" + x
  }

  /** A declaration `name :: proc(params) -> ret { ...` reads back: the
      parameter span is exactly `(params)`, the signature is the text up to
      the body, and the return type is `ret`. With the contract of
      `ExtractProcSignature`, which reads each field at the span, the
      extraction is `ProcSig(name + " :: proc(" + params + ") -> " + ret,
      ProcParamsAsWritten(params), ret)`. */
  lemma ProcSignatureRoundTrip(name: string, params: string, ret: string, x: string)
    requires Ident(name) && '(' !in params && ')' !in params && '{' !in params
    requires TypeText(ret)
    ensures var full := ProcLine(name, params, ret, x);
      var open, close := |name| + 8, |name| + 9 + |params|;
      && ParamSpanOf(full).Some?
      && ParamSpanOf(full).value.open == open && ParamSpanOf(full).value.close == close
      && Slice(full, open + 1, close) == params
      && Strip(full[..SignatureEnd(full, close)]) == name + " :: proc(" + params + ") -> " + ret
      && ReturnTypeOf(Strip(full[close + 1..])) == ret
  {
    ProcLineSignature(name, params, ret, x);
    ProcLineReturn(name, params, ret, x);
    ProcLineSpan(name, params, ret, x);
  }

  /** The corrected extractor on such a line: the signature up to the
      body, the grouped parameters of `params`, and `ret`. */
  lemma FixedProcLine(name: string, params: string, ret: string, x: string)
    requires Ident(name) && '(' !in params && ')' !in params && '{' !in params
    requires TypeText(ret)
    ensures ExtractProcSignatureFixed(ProcLine(name, params, ret, x))
         == ProcSig(name + " :: proc(" + params + ") -> " + ret, ProcParams(params), ret)
  {
    SpanParams(name, params, ret, x);
    SpanBefore(name, params, ret, x);
    SpanAfter(name, params, ret, x);
    FixedFromPieces(ProcLine(name, params, ret, x), name, params, ret, x);
  }

  /** A text whose span encloses `params`, whose signature text is
      `name :: proc(params) -> ret` and one blank, and whose text after the
      span is ` -> ret {x` extracts to that signature, the grouped
      parameters of `params`, and `ret`. */
  lemma FixedFromPieces(full: string, name: string, params: string, ret: string, x: string)
    requires Ident(name) && TypeText(ret)
    requires ParamSpanOf(full).Some?
    requires Slice(full, ParamSpanOf(full).value.open + 1, ParamSpanOf(full).value.close) == params
    requires full[..SignatureEnd(full, ParamSpanOf(full).value.close)] == name + " :: proc(" + params + ") -> " + ret + " "
    requires full[ParamSpanOf(full).value.close + 1..] == " -> " + ret + " {" + x
    ensures ExtractProcSignatureFixed(full) == ProcSig(name + " :: proc(" + params + ") -> " + ret, ProcParams(params), ret)
  {
    var head := name + " :: proc(" + params + ") -> " + ret;
    HeadStrip(name, params, ret);
    ReturnAfterClose(ret, x);
    FixedAtSpan(full, params, head + " ", head, " -> " + ret + " {" + x, ret);
  }

  /** The text the span of such a line encloses is `params`. */
  lemma SpanParams(name: string, params: string, ret: string, x: string)
    requires Ident(name) && '(' !in params && ')' !in params
    ensures var full := ProcLine(name, params, ret, x);
      && ParamSpanOf(full).Some?
      && Slice(full, ParamSpanOf(full).value.open + 1, ParamSpanOf(full).value.close) == params
  {
    ProcLineSpan(name, params, ret, x);
  }

  /** The text after the span of such a line is ` -> ret {x`. */
  lemma SpanAfter(name: string, params: string, ret: string, x: string)
    requires Ident(name) && '(' !in params && ')' !in params
    ensures var full := ProcLine(name, params, ret, x);
      && ParamSpanOf(full).Some?
      && full[ParamSpanOf(full).value.close + 1..] == " -> " + ret + " {" + x
  {
    var full := ProcLine(name, params, ret, x);
    ProcLineFront(name, params, ret, x);
    ProcLineSpan(name, params, ret, x);
    DropFront(full, name + " :: proc(" + params + ")", " -> " + ret + " {" + x, ParamSpanOf(full).value.close + 1);
  }

  /** The text up to the body of such a line, counted from its span, is
      `name :: proc(params) -> ret` and one blank. */
  lemma SpanBefore(name: string, params: string, ret: string, x: string)
    requires Ident(name) && '(' !in params && ')' !in params && '{' !in params
    requires TypeText(ret)
    ensures var full := ProcLine(name, params, ret, x);
      && ParamSpanOf(full).Some?
      && full[..SignatureEnd(full, ParamSpanOf(full).value.close)] == name + " :: proc(" + params + ") -> " + ret + " "
  {
    var full := ProcLine(name, params, ret, x);
    var head := name + " :: proc(" + params + ") -> " + ret;
    var close := |name| + 9 + |params|;
    assert full == head + " {" + x;
    assert head[close..] == ") -> " + ret;
    forall k | close <= k < |head| ensures head[k] != '{' {
      assert head[k] == head[close..][k - close];
    }
    ProcLineSpan(name, params, ret, x);
    BeforeBrace(full, head, x, ParamSpanOf(full).value.close);
  }

  /** Such a line is its front `name :: proc(params)` and the rest. */
  lemma ProcLineFront(name: string, params: string, ret: string, x: string)
    ensures ProcLine(name, params, ret, x) == (name + " :: proc(" + params + ")") + (" -> " + ret + " {" + x)
  {
  }

  /** The signature text with its trailing blank strips back to itself. */
  lemma HeadStrip(name: string, params: string, ret: string)
    requires Ident(name) && TypeText(ret)
    ensures var head := name + " :: proc(" + params + ") -> " + ret; Strip(head + " ") == head
  {
    var head := name + " :: proc(" + params + ") -> " + ret;
    assert head[0] == name[0] && head[|head| - 1] == ret[|ret| - 1];
    StripTrailingSpace(head);
  }

  /** Dropping a known front leaves the rest. */
  lemma DropFront(full: string, front: string, rest: string, n: nat)
    requires full == front + rest && n == |front|
    ensures full[n..] == rest
  {
  }

  /** When `full` is `head {x` and no `{` sits in `head` after `from`, the
      text up to the signature's end is `head` and one blank. */
  lemma BeforeBrace(full: string, head: string, x: string, from: nat)
    requires full == head + " {" + x && from <= |head|
    requires forall k :: from <= k < |head| ==> head[k] != '{'
    ensures full[..SignatureEnd(full, from)] == head + " "
  {
    var brace := |head| + 1;
    assert full[brace] == '{';
    forall k | from <= k < brace ensures full[k] != '{' {
      if k < |head| {
        assert full[k] == head[k];
      }
    }
    assert SignatureEnd(full, from) == brace;
  }

  /** The corrected extractor reads its three fields at the parameter span. */
  lemma FixedAtSpan(full: string, params: string, before: string, sig: string, after: string, ret: string)
    requires ParamSpanOf(full).Some?
    requires Slice(full, ParamSpanOf(full).value.open + 1, ParamSpanOf(full).value.close) == params
    requires full[..SignatureEnd(full, ParamSpanOf(full).value.close)] == before && Strip(before) == sig
    requires full[ParamSpanOf(full).value.close + 1..] == after && ReturnTypeOf(Strip(after)) == ret
    ensures ExtractProcSignatureFixed(full) == ProcSig(sig, ProcParams(params), ret)
  {
  }

  /** The parameter list of such a line spans exactly `(params)`. */
  lemma ProcLineSpan(name: string, params: string, ret: string, x: string)
    requires Ident(name) && '(' !in params && ')' !in params
    ensures var full := ProcLine(name, params, ret, x);
      && ParamSpanOf(full) == Some(ParamSpan(|name| + 8, |name| + 9 + |params|))
      && Slice(full, |name| + 9, |name| + 9 + |params|) == params
  {
    var full := ProcLine(name, params, ret, x);
    var front := name + " :: proc(" + params + ")";
    assert full == front + (" -> " + ret + " {" + x);
    assert full[..|front|] == front;
    SpanFromFront(full, name, params);
  }

  /** Any text that begins `name :: proc(params)` has that parameter span. */
  lemma SpanFromFront(full: string, name: string, params: string)
    requires Ident(name) && '(' !in params && ')' !in params
    requires StartsWith(full, name + " :: proc(" + params + ")")
    ensures ParamSpanOf(full) == Some(ParamSpan(|name| + 8, |name| + 9 + |params|))
    ensures Slice(full, |name| + 9, |name| + 9 + |params|) == params
  {
    FrontFacts(full, name, params);
    SpanAt(full, |name|, |name| + 9 + |params|);
  }

  /** A text whose `:: proc(` sits after a word at `n`, closed at `close`, has that span. */
  lemma SpanAt(full: string, n: nat, close: nat)
    requires n + 8 < close < |full|
    requires full[n..n + 8] == " :: proc" && full[n + 8] == '(' && full[close] == ')'
    requires forall i :: 0 <= i < n ==> IsWordChar(full[i])
    requires forall k :: n + 8 < k < close ==> full[k] != '(' && full[k] != ')'
    ensures ParamSpanOf(full) == Some(ParamSpan(n + 8, close))
  {
    ProcMatchAt(full, n);
    ParenClosedAt(full, n + 8, close);
  }

  /** The pieces of `name :: proc(params)` at the front of a text, one fact each. */
  lemma FrontFacts(full: string, name: string, params: string)
    requires Ident(name) && '(' !in params && ')' !in params
    requires StartsWith(full, name + " :: proc(" + params + ")")
    ensures |name| + 9 + |params| < |full|
    ensures full[|name|..|name| + 8] == " :: proc" && full[|name| + 8] == '('
    ensures full[|name| + 9 + |params|] == ')'
    ensures full[|name| + 9..|name| + 9 + |params|] == params
    ensures forall i :: 0 <= i < |name| ==> IsWordChar(full[i])
    ensures forall k :: |name| + 8 < k < |name| + 9 + |params| ==> full[k] != '(' && full[k] != ')'
  {
    var n := |name|;
    var close := n + 9 + |params|;
    var front := name + " :: proc(" + params + ")";
    FrontPieces(name, params);
    PrefixIndex(full, front);
    forall i | 0 <= i < n ensures IsWordChar(full[i]) {
      assert full[i] == front[i];
    }
    PrefixSlice(full, front, n, n + 8);
    PrefixSlice(full, front, n + 9, close);
    var inner := full[n + 9..close];
    forall k | n + 8 < k < close ensures full[k] != '(' && full[k] != ')' {
      assert full[k] == inner[k - n - 9];
    }
  }

  /** Each character of a prefix is the character of the whole text. */
  lemma PrefixIndex(full: string, front: string)
    requires StartsWith(full, front)
    ensures forall i :: 0 <= i < |front| ==> full[i] == front[i]
  {
    assert forall i :: 0 <= i < |front| ==> full[i] == full[..|front|][i];
  }

  /** Where the pieces of `name :: proc(params)` sit. */
  lemma FrontPieces(name: string, params: string)
    ensures var front := name + " :: proc(" + params + ")"; var n := |name|;
      && (forall i :: 0 <= i < n ==> front[i] == name[i])
      && front[n..n + 8] == " :: proc" && front[n + 8] == '('
      && front[n + 9..n + 9 + |params|] == params && front[n + 9 + |params|] == ')'
      && |front| == n + 10 + |params|
  {
  }

  /** A slice inside a prefix is the same slice of the whole text. */
  lemma PrefixSlice(full: string, front: string, a: int, b: int)
    requires StartsWith(full, front) && 0 <= a <= b <= |front|
    ensures full[a..b] == front[a..b]
  {
    assert forall i :: a <= i < b ==> full[i] == full[..|front|][i];
  }

  /** The signature of such a line is the text before ` {`. */
  lemma ProcLineSignature(name: string, params: string, ret: string, x: string)
    requires Ident(name) && '{' !in params && TypeText(ret)
    ensures var full := ProcLine(name, params, ret, x);
      Strip(full[..SignatureEnd(full, |name| + 9 + |params|)]) == name + " :: proc(" + params + ") -> " + ret
  {
    var full := ProcLine(name, params, ret, x);
    var close := |name| + 9 + |params|;
    var head := name + " :: proc(" + params + ") -> " + ret;
    assert full == head + " {" + x;
    assert head[close..] == ") -> " + ret;
    forall k | close <= k < |head| ensures head[k] != '{' {
      assert head[k] == head[close..][k - close];
    }
    assert head[0] == name[0] && head[|head| - 1] == ret[|ret| - 1];
    SignatureBeforeBrace(full, head, x, close);
  }

  /** When `full` is `head {x` and no `{` sits in `head` after `from`, the
      signature found from `from` is `head`, provided `head` has no
      blank at either end. */
  lemma SignatureBeforeBrace(full: string, head: string, x: string, from: nat)
    requires full == head + " {" + x && from <= |head|
    requires forall k :: from <= k < |head| ==> head[k] != '{'
    requires head != [] && !IsSpace(head[0]) && !IsSpace(head[|head| - 1])
    ensures Strip(full[..SignatureEnd(full, from)]) == head
  {
    var brace := |head| + 1;
    assert full[brace] == '{';
    assert full[|head|] == ' ';
    forall k | from <= k < brace ensures full[k] != '{' {
      if k < |head| {
        assert full[k] == head[k];
      }
    }
    assert SignatureEnd(full, from) == brace;
    assert full[..brace] == head + " ";
    StripTrailingSpace(head);
  }

  /** The return type of such a line is `ret`. */
  lemma ProcLineReturn(name: string, params: string, ret: string, x: string)
    requires Ident(name) && TypeText(ret)
    ensures var full := ProcLine(name, params, ret, x);
      ReturnTypeOf(Strip(full[|name| + 9 + |params| + 1..])) == ret
  {
    var full := ProcLine(name, params, ret, x);
    var front := name + " :: proc(" + params + ")";
    assert full == front + (" -> " + ret + " {" + x);
    assert full[|front|..] == " -> " + ret + " {" + x;
    ReturnAfterClose(ret, x);
  }

  /** The text after the `)` of such a line yields `ret`. */
  lemma ReturnAfterClose(ret: string, x: string)
    requires TypeText(ret)
    ensures ReturnTypeOf(Strip(" -> " + ret + " {" + x)) == ret
  {
    var after := " -> " + ret + " {" + x;
    assert after[1..] == "-> " + ret + " {" + x;
    StripAfterSpaces(after, 1);
    var front := "-> " + ret + " {";
    assert "-> " + ret + " {" + x == front + x;
    assert front[0] == '-' && front[|front| - 1] == '{';
    StripKeepsFront(front, x);
    var rest := Strip(front + x);
    var tail := rest[|front|..];
    assert rest == front + tail;
    assert front + tail == "-> " + ret + " {" + tail;
    ReturnTypeBeforeBrace(ret, tail);
  }

  /** The leftmost match of the `proc(` pattern in such a line is the one
      after `::`: the name and the `::` before it cannot end in `(`. */
  lemma ProcMatchAt(full: string, n: nat)
    requires n + 9 <= |full| && full[n..n + 8] == " :: proc" && full[n + 8] == '('
    requires forall i :: 0 <= i < n ==> IsWordChar(full[i])
    ensures SearchProcParen(full, 0) == Some(n + 8)
  {
    ProcPatternAfterColons(full, n);
    NoProcBeforeColons(full, n);
    LeftmostProcParen(full, n + 4);
  }

  /** The pattern matches at the `proc` after `::`. */
  lemma ProcPatternAfterColons(full: string, n: nat)
    requires n + 9 <= |full| && full[n..n + 8] == " :: proc" && full[n + 8] == '('
    ensures ProcParenAt(full, n + 4) == Some(n + 8)
  {
    var w := full[n..n + 8];
    assert full[n + 4] == w[4] == 'p';
    assert full[n + 4..n + 8] == "proc";
    assert SkipSpaces(full, n + 8) == n + 8;
  }

  /** No match of the pattern starts in the name or in ` :: `. */
  lemma NoProcBeforeColons(full: string, n: nat)
    requires n + 9 <= |full| && full[n..n + 8] == " :: proc"
    requires forall i :: 0 <= i < n ==> IsWordChar(full[i])
    ensures forall k :: 0 <= k < n + 4 ==> ProcParenAt(full, k).None?
  {
    var w := full[n..n + 8];
    assert full[n] == w[0] == ' ' && full[n + 1] == w[1] == ':' && full[n + 2] == w[2] == ':';
    assert full[n + 3] == w[3] == ' ';
    forall k | 0 <= k < n + 4 ensures ProcParenAt(full, k).None? {
      if k + 4 <= n {
        NoParenInName(full, n, k + 4);
      } else {
        NoProcAcrossColons(full, n, k);
      }
    }
  }

  /** The search finds the first position where the pattern matches. */
  lemma LeftmostProcParen(s: string, m: nat)
    requires ProcParenAt(s, m).Some?
    requires forall k :: 0 <= k < m ==> ProcParenAt(s, k).None?
    ensures SearchProcParen(s, 0) == ProcParenAt(s, m)
  {
  }

  /** After a `proc` that ends inside the name, or right at its end, the
      pattern finds no `(`: the next non-blank character is a word
      character or the `:` of `::`. */
  lemma NoParenInName(full: string, n: nat, j: nat)
    requires n + 2 <= |full| && full[n] == ' ' && full[n + 1] == ':'
    requires forall i :: 0 <= i < n ==> IsWordChar(full[i])
    requires j <= n
    ensures ParenAfterProc(full, j).None?
  {
    if j < n {
      assert IsWordChar(full[j]);
      assert SkipSpaces(full, j) == j;
    } else {
      assert SkipSpaces(full, j + 1) == n + 1;
      assert SkipSpaces(full, j) == n + 1;
    }
  }

  /** No `proc` starts within three characters before the `" :: "`, nor
      inside it. */
  lemma NoProcAcrossColons(full: string, n: nat, k: nat)
    requires n + 4 <= |full| && full[n] == ' ' && full[n + 1] == ':'
    requires full[n + 2] == ':' && full[n + 3] == ' '
    requires n < k + 4 < n + 8
    ensures !OccursAt(full, "proc", k)
  {
    if k + 4 <= |full| {
      var w := full[k..k + 4];
      if k < n {
        assert w[n - k] == full[n] == ' ';
      } else {
        assert w[0] == full[k] && (full[k] == ' ' || full[k] == ':');
      }
      assert w != "proc";
    }
  }

  /** A `(` followed by text without parentheses and then `)` is closed by
      that `)`. */
  lemma ParenClosedAt(s: string, open: nat, close: nat)
    requires open < close < |s| && s[open] == '(' && s[close] == ')'
    requires forall k :: open < k < close ==> s[k] != '(' && s[k] != ')'
    ensures CloseParenFrom(s, open, open, 0) == close
  {
    forall j | open < j <= close ensures ParenDepth(s, open, j) == 1 {
      ParenDepthInside(s, open, j);
    }
    assert ClosesAt(s, open, close);
    forall k | open <= k < close ensures !ClosesAt(s, open, k) {
    }
  }

  lemma {:induction false} ParenDepthInside(s: string, open: nat, j: nat)
    requires open < j <= |s| && s[open] == '('
    requires forall k :: open < k < j ==> s[k] != '(' && s[k] != ')'
    ensures ParenDepth(s, open, j) == 1
    decreases j
  {
    if j > open + 1 {
      ParenDepthInside(s, open, j - 1);
    }
  }
}
