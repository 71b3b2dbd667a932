/**
 * The declaration extractor of `processor/rust_analyzer.py`: a pre-order walk over
 * the syntax tree of one Rust file that appends one record per function, struct,
 * enum, trait, impl block, unsafe block and module it meets into the file's result
 * dictionary.
 *
 * The pure first-match scans and the records they build are functions; the walk,
 * the builders that append, the list-collecting scans and the backward doc-comment
 * scan are methods, each proved equal to a specification function (`Walk`,
 * `Visit`, `ParamsOf`, `DocComment`, ...). The lemmas at the end relate the walk to
 * the pre-order of the tree.
 */
module RustAnalyzer {
  import opened Wrappers
  import opened Text
  import opened SyntaxTree
  import opened Records
  import opened Sequences

  // ---------------------------------------------------------------------------
  // Node kinds of the Rust grammar that the extractor looks at
  // ---------------------------------------------------------------------------

  const FunctionItem := "function_item"
  const StructItem := "struct_item"
  const EnumItem := "enum_item"
  const TraitItem := "trait_item"
  const ImplItem := "impl_item"
  const UnsafeBlock := "unsafe_block"
  const ModItem := "mod_item"

  /** The seven kinds are seven different strings. */
  lemma KindsDistinct()
    ensures FunctionItem !in {StructItem, EnumItem, TraitItem, ImplItem, UnsafeBlock, ModItem}
    ensures StructItem !in {EnumItem, TraitItem, ImplItem, UnsafeBlock, ModItem}
    ensures EnumItem !in {TraitItem, ImplItem, UnsafeBlock, ModItem}
    ensures TraitItem !in {ImplItem, UnsafeBlock, ModItem}
    ensures ImplItem !in {UnsafeBlock, ModItem}
    ensures UnsafeBlock != ModItem
  {
    assert EnumItem[0] != ImplItem[0];
  }

  // ---------------------------------------------------------------------------
  // Field helpers: first-match scans over the direct children of a node
  // ---------------------------------------------------------------------------

  /** `_get_name`, the name of a declaration (also of a parameter, a field or a
      variant): the text of its first `identifier` child, `""` when it has none. */
  function GetName(n: Node): (r: string)
    ensures forall i :: IsFirst(n.children, "identifier", i) ==> r == n.children[i].text
    ensures (forall j :: 0 <= j < |n.children| ==> n.children[j].kind != "identifier") ==> r == ""
  {
    FirstText(n.children, "identifier")
  }

  /** The name of a struct, an enum or a trait as it is meant: the tree-sitter Rust
      grammar gives these names the kind `type_identifier`, so it is the text of the
      first child of that kind, `""` when there is none. */
  function GetTypeName(n: Node): (r: string)
    ensures forall i :: IsFirst(n.children, "type_identifier", i) ==> r == n.children[i].text
    ensures (forall j :: 0 <= j < |n.children| ==> n.children[j].kind != "type_identifier") ==> r == ""
  {
    FirstText(n.children, "type_identifier")
  }

  /** The name of a struct field as it is meant: the grammar gives it the kind
      `field_identifier`. */
  function GetFieldName(f: Node): (r: string)
    ensures forall i :: IsFirst(f.children, "field_identifier", i) ==> r == f.children[i].text
    ensures (forall j :: 0 <= j < |f.children| ==> f.children[j].kind != "field_identifier") ==> r == ""
  {
    FirstText(f.children, "field_identifier")
  }

  /** As written, a struct, enum or trait whose name is a `type_identifier` and which
      has no `identifier` child gets the empty name from `_get_name`; the corrected
      name is the `type_identifier`'s text. */
  lemma TypeNameAsWritten(n: Node, i: nat)
    requires IsFirst(n.children, "type_identifier", i)
    requires forall j :: 0 <= j < |n.children| ==> n.children[j].kind != "identifier"
    ensures GetName(n) == ""
    ensures GetTypeName(n) == n.children[i].text
  {
  }

  /** A struct, an enum or a trait is recorded under the name of its first
      `type_identifier` child, as the grammar names them. */
  lemma DeclNames(n: Node, code: string, i: nat)
    requires IsFirst(n.children, "type_identifier", i)
    ensures StructOf(n, code).name == n.children[i].text
    ensures EnumOf(n, code).name == n.children[i].text
    ensures TraitOf(n, code).name == n.children[i].text
  {
  }

  /** As written, a field whose name is a `field_identifier` gets the empty name; the
      corrected name is that child's text. */
  lemma FieldNameAsWritten(f: Node, i: nat)
    requires IsFirst(f.children, "field_identifier", i)
    requires forall j :: 0 <= j < |f.children| ==> f.children[j].kind != "identifier"
    ensures FieldOfAsWritten(f).name == ""
    ensures FieldOf(f).name == f.children[i].text
  {
  }

  /** Public exactly when the first `visibility_modifier` child reads `pub`; a
      restricted `pub(crate)` and a missing modifier are both private. */
  function IsPub(n: Node): (r: bool)
    ensures r <==> exists i :: IsFirst(n.children, "visibility_modifier", i) && n.children[i].text == "pub"
  {
    match FirstOfKind(n.children, "visibility_modifier")
    case Some(i) => n.children[i].text == "pub"
    case None => false
  }

  /** Unsafe exactly when some direct child is the `unsafe` token. */
  function IsUnsafe(n: Node): (r: bool)
    ensures r <==> exists i :: 0 <= i < |n.children| && n.children[i].kind == "unsafe"
  {
    FirstOfKind(n.children, "unsafe").Some?
  }

  /** The type of a parameter or of a struct field: the text of the child right after
      the first `:` child that has one, `""` otherwise. */
  function TypeAfterColon(n: Node): (r: string)
    ensures forall i :: IsFirstFollowed(n.children, ":", i) ==> r == n.children[i + 1].text
    ensures (forall j :: 0 <= j < |n.children| - 1 ==> n.children[j].kind != ":") ==> r == ""
  {
    TextAfterFirst(n.children, ":", "")
  }

  /** The return type of a function: the text of the child right after the first `->`
      child that has one, the unit type `()` otherwise. */
  function GetReturnType(n: Node): (r: string)
    ensures forall i :: IsFirstFollowed(n.children, "->", i) ==> r == n.children[i + 1].text
    ensures (forall j :: 0 <= j < |n.children| - 1 ==> n.children[j].kind != "->") ==> r == "()"
  {
    TextAfterFirst(n.children, "->", "()")
  }

  /** The `type` of an impl block: the text of its first `type_identifier` child, `""`
      when there is none. In `impl Trait for Type` the first one is the trait. */
  function GetImplType(n: Node): (r: string)
    ensures forall i :: IsFirst(n.children, "type_identifier", i) ==> r == n.children[i].text
    ensures (forall j :: 0 <= j < |n.children| ==> n.children[j].kind != "type_identifier") ==> r == ""
  {
    GetTypeName(n)
  }

  /** The `trait` of an impl block: the text of the child right after the first `for`
      child that has one, `""` otherwise. In `impl Trait for Type` that child is the
      implementing type. */
  function GetImplTrait(n: Node): (r: string)
    ensures forall i :: IsFirstFollowed(n.children, "for", i) ==> r == n.children[i + 1].text
    ensures (forall j :: 0 <= j < |n.children| - 1 ==> n.children[j].kind != "for") ==> r == ""
  {
    TextAfterFirst(n.children, "for", "")
  }

  /** Trait method lists are not extracted: always empty. */
  function GetTraitMethods(n: Node): (r: seq<string>)
    ensures r == []
  {
    []
  }

  /** Impl method lists are not extracted: always empty. */
  function GetImplMethods(n: Node): (r: seq<string>)
    ensures r == []
  {
    []
  }

  /** An impl block of a trait: some `for` child has a node after it. */
  predicate IsTraitImpl(n: Node)
  {
    |n.children| > 0 && FirstOfKind(n.children[..|n.children| - 1], "for").Some?
  }

  /** The impl record as `_extract_impl` builds it: `type` from `_get_impl_type` and
      `trait` from `_get_impl_trait`. */
  function ImplOfAsWritten(n: Node): ImplRecord
  {
    ImplRecord(GetImplType(n), GetImplTrait(n), GetImplMethods(n), LocationOf(n))
  }

  /** The trait of a trait impl as it is meant: the text of the child right before
      the first `for` that has a successor, whatever its kind (a plain, scoped or
      generic name), `""` when there is none. */
  function ImplTraitName(n: Node): (r: string)
    ensures forall j :: IsFirstFollowed(n.children, "for", j) && j > 0 ==> r == n.children[j - 1].text
    ensures !IsTraitImpl(n) ==> r == ""
  {
    TextBeforeFirst(n.children, "for", "")
  }

  /** The impl record with its fields as they are meant: the implementing type and
      the trait. For a trait impl the implementing type is the child after `for`,
      which `_get_impl_trait` gives, and the trait is the child before it. */
  function ImplOf(n: Node): ImplRecord
  {
    if IsTraitImpl(n) then ImplRecord(GetImplTrait(n), ImplTraitName(n), GetImplMethods(n), LocationOf(n))
    else ImplOfAsWritten(n)
  }

  /** As written, for `impl Trait for Type` (children `impl`, the trait, `for`, the
      type, ...) the record's `type` is the trait and its `trait` is the implementing
      type: the first `type_identifier` is the trait name. */
  lemma TraitImplFieldsAsWritten(n: Node)
    requires |n.children| >= 4
    requires n.children[0].kind == "impl" && n.children[1].kind == "type_identifier"
    requires n.children[2].kind == "for" && n.children[3].kind == "type_identifier"
    ensures ImplOfAsWritten(n).typeName == n.children[1].text
    ensures ImplOfAsWritten(n).traitName == n.children[3].text
  {
    assert IsFirst(n.children, "type_identifier", 1);
    assert IsFirstFollowed(n.children, "for", 2);
  }

  /** As written, when no child is a plain `type_identifier` (as in
      `impl<T> From<T> for W<T>`, whose two sides are generic types) the record's
      `type` is empty and its `trait` is the implementing type. */
  lemma GenericTraitImplAsWritten(n: Node, j: nat)
    requires IsFirstFollowed(n.children, "for", j)
    requires forall k :: 0 <= k < |n.children| ==> n.children[k].kind != "type_identifier"
    ensures ImplOfAsWritten(n).typeName == ""
    ensures ImplOfAsWritten(n).traitName == n.children[j + 1].text
  {
  }

  /** For every trait impl, `impl Trait for Type` with any `unsafe`, type parameters
      or `!` in front and a type of any kind on either side, the record names the
      implementing type (the child after the first followed `for`) as its `type` and
      the trait (the child before it) as its `trait`. */
  lemma TraitImplFields(n: Node, j: nat)
    requires IsFirstFollowed(n.children, "for", j) && j > 0
    ensures ImplOf(n).typeName == n.children[j + 1].text
    ensures ImplOf(n).traitName == n.children[j - 1].text
  {
    var cs := n.children[..|n.children| - 1];
    assert cs[j].kind == "for";
    assert IsTraitImpl(n);
    assert GetImplTrait(n) == n.children[j + 1].text;
    assert ImplTraitName(n) == n.children[j - 1].text;
  }

  /** The correction touches trait impls only: an impl without a followed `for` gets
      the record the source builds, with an empty trait. */
  lemma InherentImplAsWritten(n: Node)
    requires !IsTraitImpl(n)
    ensures ImplOf(n) == ImplOfAsWritten(n)
    ensures ImplOf(n).traitName == ""
  {
    if |n.children| > 0 {
      var cs := n.children[..|n.children| - 1];
      assert forall j :: 0 <= j < |n.children| - 1 ==> n.children[j].kind == cs[j].kind;
    }
  }

  /** For an inherent `impl Type` (children `impl`, the type, the body) the record
      names the type and an empty trait. */
  lemma InherentImplFields(n: Node)
    requires |n.children| == 3
    requires n.children[0].kind == "impl" && n.children[1].kind == "type_identifier"
    requires n.children[2].kind == "declaration_list"
    ensures ImplOf(n).typeName == n.children[1].text
    ensures ImplOf(n).traitName == ""
  {
    assert IsFirst(n.children, "type_identifier", 1);
    var cs := n.children[..2];
    assert cs[0].kind == "impl" && cs[1].kind == "type_identifier";
    assert FirstOfKind(cs, "for").None?;
  }

  // ---------------------------------------------------------------------------
  // List helpers: parameters, fields, variants
  // ---------------------------------------------------------------------------

  function ParamOf(p: Node): Param
  {
    Param(GetName(p), TypeAfterColon(p))
  }

  /** A field entry as `_get_fields` builds it, its name from `_get_name`. */
  function FieldOfAsWritten(f: Node): Field
  {
    Field(GetName(f), TypeAfterColon(f), IsPub(f))
  }

  /** A field entry with its name as it is meant. */
  function FieldOf(f: Node): Field
  {
    Field(GetFieldName(f), TypeAfterColon(f), IsPub(f))
  }

  /** One entry per `parameter` child of each `parameters` child, in source order. */
  function ParamsOf(n: Node): seq<Param>
  {
    MapSeq(Items(n.children, "parameters", "parameter"), ParamOf)
  }

  /** One entry per `field_declaration` child of each `field_declaration_list` child. */
  function FieldsOf(n: Node): seq<Field>
  {
    MapSeq(Items(n.children, "field_declaration_list", "field_declaration"), FieldOf)
  }

  /** The name of each `enum_variant` child of each `enum_variant_list` child. */
  function VariantsOf(n: Node): seq<string>
  {
    MapSeq(Items(n.children, "enum_variant_list", "enum_variant"), GetName)
  }

  /** One step of the inner loop: the next child of `list` extends the collected
      list exactly when it is of kind `itemKind`. */
  lemma CollectOwnStep<T>(cs: seq<Node>, j: nat, itemKind: string, f: Node -> T, r: seq<T>)
    requires j < |cs|
    requires r == MapSeq(OfKind(cs[..j], itemKind), f)
    ensures (if cs[j].kind == itemKind then r + [f(cs[j])] else r) == MapSeq(OfKind(cs[..j + 1], itemKind), f)
  {
    OfKindSnoc(cs[..j], cs[j], itemKind);
    assert cs[..j + 1] == cs[..j] + [cs[j]];
    MapSeqAppend(OfKind(cs[..j], itemKind), if cs[j].kind == itemKind then [cs[j]] else [], f);
  }

  /** The inner loop of the nested scan: `f` of each child of `list` of kind
      `itemKind`, in order. */
  method CollectOwn<T>(list: Node, itemKind: string, f: Node -> T) returns (r: seq<T>)
    ensures r == MapSeq(OfKind(list.children, itemKind), f)
  {
    r := [];
    for j := 0 to |list.children|
      invariant r == MapSeq(OfKind(list.children[..j], itemKind), f)
    {
      var item := list.children[j];
      CollectOwnStep(list.children, j, itemKind, f, r);
      if item.kind == itemKind {
        r := r + [f(item)];
      }
    }
    assert list.children[..|list.children|] == list.children;
  }

  /** One step of the outer loop: the next child contributes its own items when it is
      of kind `listKind`, and nothing otherwise. */
  lemma CollectItemsStep<T>(cs: seq<Node>, i: nat, listKind: string, itemKind: string, f: Node -> T,
                            r: seq<T>, own: seq<T>)
    requires i < |cs|
    requires r == MapSeq(Items(cs[..i], listKind, itemKind), f)
    requires own == MapSeq(OfKind(cs[i].children, itemKind), f)
    ensures (if cs[i].kind == listKind then r + own else r) == MapSeq(Items(cs[..i + 1], listKind, itemKind), f)
  {
    ItemsSnoc(cs[..i], cs[i], listKind, itemKind);
    assert cs[..i + 1] == cs[..i] + [cs[i]];
    MapSeqAppend(Items(cs[..i], listKind, itemKind),
      if cs[i].kind == listKind then OfKind(cs[i].children, itemKind) else [], f);
  }

  /** The nested scan shared by `_get_params`, `_get_fields` and `_get_enum_variants`:
      for each child of kind `listKind`, for each of its children of kind `itemKind`,
      append `f` of it. */
  method CollectItems<T>(n: Node, listKind: string, itemKind: string, f: Node -> T) returns (r: seq<T>)
    ensures r == MapSeq(Items(n.children, listKind, itemKind), f)
  {
    r := [];
    for i := 0 to |n.children|
      invariant r == MapSeq(Items(n.children[..i], listKind, itemKind), f)
    {
      var child := n.children[i];
      if child.kind == listKind {
        var own := CollectOwn(child, itemKind, f);
        CollectItemsStep(n.children, i, listKind, itemKind, f, r, own);
        r := r + own;
      } else {
        CollectItemsStep(n.children, i, listKind, itemKind, f, r, MapSeq(OfKind(child.children, itemKind), f));
      }
    }
    assert n.children[..|n.children|] == n.children;
  }

  method GetParams(n: Node) returns (params: seq<Param>)
    ensures params == ParamsOf(n)
    ensures |params| == |Items(n.children, "parameters", "parameter")|
  {
    params := CollectItems(n, "parameters", "parameter", ParamOf);
  }

  method GetFields(n: Node) returns (fields: seq<Field>)
    ensures fields == FieldsOf(n)
  {
    fields := CollectItems(n, "field_declaration_list", "field_declaration", FieldOf);
  }

  method GetEnumVariants(n: Node) returns (variants: seq<string>)
    ensures variants == VariantsOf(n)
  {
    variants := CollectItems(n, "enum_variant_list", "enum_variant", GetName);
  }

  // ---------------------------------------------------------------------------
  // Doc comments
  // ---------------------------------------------------------------------------

  /** The lines of a file's text, as `code.split('\n')`. */
  function Lines(code: string): (r: seq<string>)
    ensures |r| >= 1
  {
    Split(code, '\n')
  }

  /** An outer (`///`) or inner (`//!`) doc-comment line, after stripping. */
  predicate IsDocLine(l: string)
  {
    StartsWith(l, "///") || StartsWith(l, "//!")
  }

  /** The doc lines the backward scan from line `k - 1` keeps, in source order, where
      `ts` are the stripped lines of the text: doc lines are kept, blank lines are
      passed over, and the first other line stops the scan. */
  function DocLinesBefore(ts: seq<string>, k: nat): (r: seq<string>)
    requires k <= |ts|
    ensures |r| <= k
    ensures forall i :: 0 <= i < |r| ==> IsDocLine(r[i])
  {
    if k == 0 then []
    else if IsDocLine(ts[k - 1]) then DocLinesBefore(ts, k - 1) + [ts[k - 1]]
    else if ts[k - 1] == "" then DocLinesBefore(ts, k - 1)
    else []
  }

  /** One step of the backward scan, at line `k - 1`: `all` is what the scan keeps
      from the lines before `k` followed by `kept`. */
  lemma DocLinesStep(ts: seq<string>, k: nat, all: seq<string>, kept: seq<string>)
    requires 0 < k <= |ts|
    requires all == DocLinesBefore(ts, k) + kept
    ensures IsDocLine(ts[k - 1]) ==> all == DocLinesBefore(ts, k - 1) + ([ts[k - 1]] + kept)
    ensures !IsDocLine(ts[k - 1]) && ts[k - 1] == "" ==> all == DocLinesBefore(ts, k - 1) + kept
    ensures !IsDocLine(ts[k - 1]) && ts[k - 1] != "" ==> all == kept
  {
  }

  /** The doc lines among `ts`, in order. */
  function KeepDocs(ts: seq<string>): (r: seq<string>)
    ensures forall i :: 0 <= i < |r| ==> IsDocLine(r[i])
  {
    if ts == [] then []
    else (if IsDocLine(ts[0]) then [ts[0]] else []) + KeepDocs(ts[1..])
  }

  lemma {:induction false} KeepDocsSnoc(ts: seq<string>, t: string)
    ensures KeepDocs(ts + [t]) == KeepDocs(ts) + (if IsDocLine(t) then [t] else [])
  {
    if ts == [] {
      assert [] + [t] == [t];
      assert [t][1..] == [];
    } else {
      assert (ts + [t])[0] == ts[0];
      assert (ts + [t])[1..] == ts[1..] + [t];
      KeepDocsSnoc(ts[1..], t);
    }
  }

  /** A stripped line that ends the backward scan: neither blank nor a doc line. */
  predicate StopsScan(t: string)
  {
    !IsDocLine(t) && t != ""
  }

  /** What the backward scan keeps, without reference to the scan: when the stripped
      lines `s` to `k - 1` are all doc or blank lines and line `s - 1` (if there is
      one) ends the scan, the kept lines are the doc lines of that block, in source
      order. */
  lemma {:induction false} DocLinesBeforeBlock(ts: seq<string>, s: nat, k: nat)
    requires s <= k <= |ts|
    requires s == 0 || StopsScan(ts[s - 1])
    requires forall j :: s <= j < k ==> !StopsScan(ts[j])
    ensures DocLinesBefore(ts, k) == KeepDocs(ts[s..k])
    decreases k
  {
    if k == s {
      assert ts[s..k] == [];
    } else {
      DocLinesBeforeBlock(ts, s, k - 1);
      assert ts[s..k] == ts[s..k - 1] + [ts[k - 1]];
      KeepDocsSnoc(ts[s..k - 1], ts[k - 1]);
      assert !StopsScan(ts[k - 1]);
    }
  }

  /** The doc comment of a declaration starting on line `row`: its doc lines joined
      by newlines; none when it starts on the first line. (A row past the end of the
      text makes the extractor raise; the value given for it here is never used.) */
  function DocComment(lines: seq<string>, row: nat): (r: string)
    ensures row == 0 ==> r == ""
  {
    if row <= |lines| then Join(DocLinesBefore(MapSeq(lines, Strip), row), "\n") else ""
  }

  /** `_get_doc_comment`: `None` stands for the `IndexError` raised when the
      declaration starts past the last line of the text. */
  method GetDocComment(n: Node, code: string) returns (doc: Option<string>)
    ensures doc.None? <==> n.startPoint.row > |Lines(code)|
    ensures doc.Some? ==> doc.value == DocComment(Lines(code), n.startPoint.row)
  {
    var startLine := n.startPoint.row;
    var lines := Split(code, '\n');
    if startLine > |lines| {
      return None;
    }
    var docLines: seq<string> := [];
    var i: int := startLine - 1;
    ghost var ts := MapSeq(lines, Strip);
    ghost var all := DocLinesBefore(ts, startLine);
    assert all == all + [];
    while i >= 0
      invariant -1 <= i < startLine
      invariant all == DocLinesBefore(ts, i + 1) + docLines
    {
      var line := Strip(lines[i]);
      DocLinesStep(ts, i + 1, all, docLines);
      if StartsWith(line, "///") || StartsWith(line, "//!") {
        docLines := [line] + docLines;
      } else if line != "" {
        break;
      }
      i := i - 1;
    }
    assert all == docLines;
    return Some(Join(docLines, "\n"));
  }

  // ---------------------------------------------------------------------------
  // Records of one node
  // ---------------------------------------------------------------------------

  function LocationOf(n: Node): Location
  {
    Location(n.startPoint, n.endPoint)
  }

  function FunctionOf(n: Node, code: string): FunctionRecord
  {
    FunctionRecord(GetName(n), IsPub(n), IsUnsafe(n), ParamsOf(n), GetReturnType(n),
      DocComment(Lines(code), n.startPoint.row), LocationOf(n))
  }

  function StructOf(n: Node, code: string): StructRecord
  {
    StructRecord(GetTypeName(n), IsPub(n), FieldsOf(n), DocComment(Lines(code), n.startPoint.row), LocationOf(n))
  }

  function EnumOf(n: Node, code: string): EnumRecord
  {
    EnumRecord(GetTypeName(n), IsPub(n), VariantsOf(n), DocComment(Lines(code), n.startPoint.row), LocationOf(n))
  }

  function TraitOf(n: Node, code: string): TraitRecord
  {
    TraitRecord(GetTypeName(n), IsPub(n), GetTraitMethods(n), DocComment(Lines(code), n.startPoint.row), LocationOf(n))
  }

  /** The unsafe block's own text, `code[start_byte:end_byte]` (offsets taken as
      indices into the text). */
  function UnsafeBlockOf(n: Node, code: string): UnsafeBlockRecord
  {
    UnsafeBlockRecord(Slice(code, n.startByte, n.endByte), LocationOf(n))
  }

  function ModuleOf(n: Node): ModuleRecord
  {
    ModuleRecord(GetName(n), IsPub(n), LocationOf(n))
  }

  /** What visiting one node contributes: one record when its kind has a rule,
      nothing otherwise. */
  function Visit(n: Node, code: string): Declarations
  {
    if n.kind == FunctionItem then Empty.(functions := [FunctionOf(n, code)])
    else if n.kind == StructItem then Empty.(structs := [StructOf(n, code)])
    else if n.kind == EnumItem then Empty.(enums := [EnumOf(n, code)])
    else if n.kind == TraitItem then Empty.(traits := [TraitOf(n, code)])
    else if n.kind == ImplItem then Empty.(impls := [ImplOf(n)])
    else if n.kind == UnsafeBlock then Empty.(unsafeBlocks := [UnsafeBlockOf(n, code)])
    else if n.kind == ModItem then Empty.(modules := [ModuleOf(n)])
    else Empty
  }

  /** Visiting `n` does not raise: a node whose rule reads its doc comment does not
      start past the last line of a text with `lineCount` lines. */
  predicate VisitFits(n: Node, lineCount: nat)
  {
    (n.kind in {FunctionItem, StructItem, EnumItem, TraitItem}) ==> n.startPoint.row <= lineCount
  }

  /** Walking the tree rooted at `n` does not raise. */
  predicate Fits(n: Node, lineCount: nat)
  {
    VisitFits(n, lineCount) && FitsAll(n.children, lineCount)
  }

  /** Walking each tree of `ns` in turn does not raise. */
  predicate FitsAll(ns: seq<Node>, lineCount: nat)
  {
    ns == [] || (Fits(ns[0], lineCount) && FitsAll(ns[1..], lineCount))
  }

  /** A list of trees fits exactly when each of them does. */
  lemma {:induction false} FitsAllEach(ns: seq<Node>, lineCount: nat)
    ensures FitsAll(ns, lineCount) <==> forall k :: 0 <= k < |ns| ==> Fits(ns[k], lineCount)
  {
    if ns != [] {
      FitsAllEach(ns[1..], lineCount);
      assert forall k :: 0 < k < |ns| ==> ns[k] == ns[1..][k - 1];
    }
  }

  lemma FitsAllTake(ns: seq<Node>, i: nat, lineCount: nat)
    requires i < |ns|
    ensures FitsAll(ns[..i + 1], lineCount) <==> FitsAll(ns[..i], lineCount) && Fits(ns[i], lineCount)
  {
    FitsAllEach(ns[..i + 1], lineCount);
    FitsAllEach(ns[..i], lineCount);
    assert forall k :: 0 <= k < i ==> ns[..i + 1][k] == ns[..i][k];
  }

  /** A child that does not fit keeps its parent from fitting. */
  lemma FitsChild(n: Node, i: nat, lineCount: nat)
    requires i < |n.children| && !Fits(n.children[i], lineCount)
    ensures !Fits(n, lineCount)
  {
    FitsAllEach(n.children, lineCount);
  }

  /** The records of a walk that visits `n`, then walks each child in order. */
  function Walk(n: Node, code: string): Declarations
  {
    Visit(n, code).Append(WalkAll(n.children, code))
  }

  function WalkAll(ns: seq<Node>, code: string): Declarations
  {
    if ns == [] then Empty else Walk(ns[0], code).Append(WalkAll(ns[1..], code))
  }

  lemma {:induction false} WalkAllSnoc(ns: seq<Node>, n: Node, code: string)
    ensures WalkAll(ns + [n], code) == WalkAll(ns, code).Append(Walk(n, code))
  {
    if ns == [] {
      assert [] + [n] == [n];
      AppendLaws(Walk(n, code), Empty, Empty);
    } else {
      assert (ns + [n])[0] == ns[0];
      assert (ns + [n])[1..] == ns[1..] + [n];
      WalkAllSnoc(ns[1..], n, code);
      AppendLaws(Walk(ns[0], code), WalkAll(ns[1..], code), Walk(n, code));
    }
  }

  lemma WalkAllTake(ns: seq<Node>, i: nat, code: string)
    requires i < |ns|
    ensures WalkAll(ns[..i + 1], code) == WalkAll(ns[..i], code).Append(Walk(ns[i], code))
  {
    assert ns[..i + 1] == ns[..i] + [ns[i]];
    WalkAllSnoc(ns[..i], ns[i], code);
  }

  // ---------------------------------------------------------------------------
  // The record builders and the walk
  // ---------------------------------------------------------------------------

  method ExtractFunction(n: Node, result: KindLists, code: string) returns (ok: bool)
    modifies result
    ensures ok <==> n.startPoint.row <= |Lines(code)|
    ensures ok ==> result.Contents() == old(result.Contents()).Append(Empty.(functions := [FunctionOf(n, code)]))
    ensures !ok ==> result.Contents() == old(result.Contents())
  {
    var doc := GetDocComment(n, code);
    if doc.None? {
      return false;
    }
    var params := GetParams(n);
    result.AddFunction(FunctionRecord(GetName(n), IsPub(n), IsUnsafe(n), params, GetReturnType(n),
      doc.value, LocationOf(n)));
    return true;
  }

  method ExtractStruct(n: Node, result: KindLists, code: string) returns (ok: bool)
    modifies result
    ensures ok <==> n.startPoint.row <= |Lines(code)|
    ensures ok ==> result.Contents() == old(result.Contents()).Append(Empty.(structs := [StructOf(n, code)]))
    ensures !ok ==> result.Contents() == old(result.Contents())
  {
    var doc := GetDocComment(n, code);
    if doc.None? {
      return false;
    }
    var fields := GetFields(n);
    result.AddStruct(StructRecord(GetTypeName(n), IsPub(n), fields, doc.value, LocationOf(n)));
    return true;
  }

  method ExtractEnum(n: Node, result: KindLists, code: string) returns (ok: bool)
    modifies result
    ensures ok <==> n.startPoint.row <= |Lines(code)|
    ensures ok ==> result.Contents() == old(result.Contents()).Append(Empty.(enums := [EnumOf(n, code)]))
    ensures !ok ==> result.Contents() == old(result.Contents())
  {
    var doc := GetDocComment(n, code);
    if doc.None? {
      return false;
    }
    var variants := GetEnumVariants(n);
    result.AddEnum(EnumRecord(GetTypeName(n), IsPub(n), variants, doc.value, LocationOf(n)));
    return true;
  }

  method ExtractTrait(n: Node, result: KindLists, code: string) returns (ok: bool)
    modifies result
    ensures ok <==> n.startPoint.row <= |Lines(code)|
    ensures ok ==> result.Contents() == old(result.Contents()).Append(Empty.(traits := [TraitOf(n, code)]))
    ensures !ok ==> result.Contents() == old(result.Contents())
  {
    var doc := GetDocComment(n, code);
    if doc.None? {
      return false;
    }
    result.AddTrait(TraitRecord(GetTypeName(n), IsPub(n), GetTraitMethods(n), doc.value, LocationOf(n)));
    return true;
  }

  method ExtractImpl(n: Node, result: KindLists)
    modifies result
    ensures result.Contents() == old(result.Contents()).Append(Empty.(impls := [ImplOf(n)]))
  {
    var typeName := GetImplType(n);
    var traitName := GetImplTrait(n);
    if IsTraitImpl(n) {
      typeName, traitName := traitName, ImplTraitName(n);
    }
    result.AddImpl(ImplRecord(typeName, traitName, GetImplMethods(n), LocationOf(n)));
  }

  method ExtractUnsafeBlock(n: Node, result: KindLists, code: string)
    modifies result
    ensures result.Contents() == old(result.Contents()).Append(Empty.(unsafeBlocks := [UnsafeBlockOf(n, code)]))
  {
    result.AddUnsafeBlock(UnsafeBlockRecord(Slice(code, n.startByte, n.endByte), LocationOf(n)));
  }

  method ExtractModule(n: Node, result: KindLists)
    modifies result
    ensures result.Contents() == old(result.Contents()).Append(Empty.(modules := [ModuleOf(n)]))
  {
    result.AddModule(ModuleRecord(GetName(n), IsPub(n), LocationOf(n)));
  }

  /** The dispatch of `_traverse`: the builder for the kind of `n`, if it has one.
      `ok` is false when the builder raised, and then nothing was appended. */
  method VisitNode(n: Node, result: KindLists, code: string) returns (ok: bool)
    modifies result
    ensures ok <==> VisitFits(n, |Lines(code)|)
    ensures ok ==> result.Contents() == old(result.Contents()).Append(Visit(n, code))
  {
    ok := true;
    if n.kind == FunctionItem {
      ok := ExtractFunction(n, result, code);
    } else if n.kind == StructItem {
      ok := ExtractStruct(n, result, code);
    } else if n.kind == EnumItem {
      ok := ExtractEnum(n, result, code);
    } else if n.kind == TraitItem {
      ok := ExtractTrait(n, result, code);
    } else if n.kind == ImplItem {
      ExtractImpl(n, result);
    } else if n.kind == UnsafeBlock {
      ExtractUnsafeBlock(n, result, code);
    } else if n.kind == ModItem {
      ExtractModule(n, result);
    }
  }

  /** One step of the loop over the children: walking the next child extends the
      records of the children walked so far. */
  lemma TraverseStep(visited: Declarations, ns: seq<Node>, i: nat, code: string, d: Declarations)
    requires i < |ns|
    requires d == visited.Append(WalkAll(ns[..i], code))
    ensures d.Append(Walk(ns[i], code)) == visited.Append(WalkAll(ns[..i + 1], code))
  {
    WalkAllTake(ns, i, code);
    AppendStep(visited, WalkAll(ns[..i], code), Walk(ns[i], code), WalkAll(ns[..i + 1], code), d);
  }

  /** `_traverse`: dispatch `n` by kind, then walk every child whether or not a rule
      matched. `ok` is false when a builder raised; the exception ends the whole walk. */
  method Traverse(n: Node, result: KindLists, code: string) returns (ok: bool)
    modifies result
    ensures ok <==> Fits(n, |Lines(code)|)
    ensures ok ==> result.Contents() == old(result.Contents()).Append(Walk(n, code))
    decreases n
  {
    ghost var before := result.Contents();
    ok := VisitNode(n, result, code);
    if !ok {
      return;
    }
    ghost var visited := before.Append(Visit(n, code));
    TraverseStart(visited, n.children, code);
    for i := 0 to |n.children|
      invariant FitsAll(n.children[..i], |Lines(code)|)
      invariant result.Contents() == visited.Append(WalkAll(n.children[..i], code))
    {
      TraverseStep(visited, n.children, i, code, result.Contents());
      ok := Traverse(n.children[i], result, code);
      if !ok {
        FitsChild(n, i, |Lines(code)|);
        return;
      }
      FitsAllTake(n.children, i, |Lines(code)|);
    }
    TraverseEnd(before, n, code, result.Contents());
  }

  /** Before the first child: nothing walked yet. */
  lemma TraverseStart(visited: Declarations, ns: seq<Node>, code: string)
    ensures visited == visited.Append(WalkAll(ns[..0], code))
    ensures FitsAll(ns[..0], |Lines(code)|)
  {
    assert ns[..0] == [];
    AppendLaws(visited, Empty, Empty);
  }

  /** After the last child: the node and all its children are walked. */
  lemma TraverseEnd(before: Declarations, n: Node, code: string, d: Declarations)
    requires VisitFits(n, |Lines(code)|) && FitsAll(n.children[..|n.children|], |Lines(code)|)
    requires d == before.Append(Visit(n, code)).Append(WalkAll(n.children[..|n.children|], code))
    ensures Fits(n, |Lines(code)|)
    ensures d == before.Append(Walk(n, code))
  {
    assert n.children[..|n.children|] == n.children;
    AppendLaws(before, Visit(n, code), WalkAll(n.children, code));
  }

  // ---------------------------------------------------------------------------
  // One file
  // ---------------------------------------------------------------------------

  /** What reading and parsing one file gives: the file could not be read (or
      decoded), or its text and the parser's tree of it. */
  datatype Reading = Unreadable | Read(code: string, tree: Node)

  /** `analyze_file`'s result: `{}` after an exception, otherwise the relative file
      name with the seven record lists. */
  datatype FileResult = Failed | Analyzed(file: string, decls: Declarations)

  /** The seven lists of a per-file result, as `.get(kind, [])` reads them. */
  function KindsOf(r: FileResult): Declarations
  {
    if r.Analyzed? then r.decls else Empty
  }

  /** What `analyze_file` returns. `relPath` is the file's path relative to the crate,
      `None` when it is not inside the crate (`relative_to` raises). */
  function Analysis(relPath: Option<string>, reading: Reading): FileResult
  {
    if reading.Unreadable? || relPath.None? || !Fits(reading.tree, |Lines(reading.code)|) then Failed
    else Analyzed(relPath.value, Walk(reading.tree, reading.code))
  }

  method AnalyzeFile(relPath: Option<string>, reading: Reading) returns (r: FileResult)
    ensures r == Analysis(relPath, reading)
    ensures r.Failed? <==> reading.Unreadable? || relPath.None? || !Fits(reading.tree, |Lines(reading.code)|)
    ensures r.Analyzed? ==> r.file == relPath.value && r.decls == Walk(reading.tree, reading.code)
    ensures reading.Read? && relPath.Some? ==>
      (r.Failed? <==> !AllVisitFit(PreOrder(reading.tree), |Lines(reading.code)|))
  {
    if reading.Unreadable? || relPath.None? {
      return Failed;
    }
    FitsIsPreOrder(reading.tree, |Lines(reading.code)|);
    var result := new KindLists();
    var ok := Traverse(reading.tree, result, reading.code);
    if !ok {
      return Failed;
    }
    AppendLaws(Walk(reading.tree, reading.code), Empty, Empty);
    return Analyzed(relPath.value, result.Contents());
  }

  // ---------------------------------------------------------------------------
  // Properties of the walk
  // ---------------------------------------------------------------------------

  /** The records of visiting each node of `ms` in turn, without descending. */
  function VisitAll(ms: seq<Node>, code: string): Declarations
  {
    if ms == [] then Empty else Visit(ms[0], code).Append(VisitAll(ms[1..], code))
  }

  lemma {:induction false} VisitAllAppend(a: seq<Node>, b: seq<Node>, code: string)
    ensures VisitAll(a + b, code) == VisitAll(a, code).Append(VisitAll(b, code))
  {
    if a == [] {
      assert a + b == b;
      AppendLaws(VisitAll(b, code), Empty, Empty);
    } else {
      assert (a + b)[0] == a[0];
      assert (a + b)[1..] == a[1..] + b;
      VisitAllAppend(a[1..], b, code);
      AppendLaws(Visit(a[0], code), VisitAll(a[1..], code), VisitAll(b, code));
    }
  }

  /** The walk visits exactly the nodes of the tree, in pre-order: each node before
      its descendants, and the walk goes on below a node whether or not a rule
      matched it. */
  lemma {:induction false} WalkIsPreOrder(n: Node, code: string)
    ensures Walk(n, code) == VisitAll(PreOrder(n), code)
    decreases n, 1
  {
    WalkAllIsPreOrder(n.children, code);
    var ms := PreOrder(n);
    assert ms[0] == n && ms[1..] == PreOrderAll(n.children);
  }

  lemma {:induction false} WalkAllIsPreOrder(ns: seq<Node>, code: string)
    ensures WalkAll(ns, code) == VisitAll(PreOrderAll(ns), code)
    decreases ns, 0
  {
    if ns != [] {
      WalkIsPreOrder(ns[0], code);
      WalkAllIsPreOrder(ns[1..], code);
      VisitAllAppend(PreOrder(ns[0]), PreOrderAll(ns[1..]), code);
    }
  }

  /** Visiting one node yields, for each kind, one record when the node is of that
      kind and none otherwise. */
  lemma VisitKinds(m: Node, code: string)
    ensures Visit(m, code).functions == MapSeq(OfKind([m], FunctionItem), m => FunctionOf(m, code))
    ensures Visit(m, code).structs == MapSeq(OfKind([m], StructItem), m => StructOf(m, code))
    ensures Visit(m, code).enums == MapSeq(OfKind([m], EnumItem), m => EnumOf(m, code))
    ensures Visit(m, code).traits == MapSeq(OfKind([m], TraitItem), m => TraitOf(m, code))
    ensures Visit(m, code).impls == MapSeq(OfKind([m], ImplItem), ImplOf)
    ensures Visit(m, code).unsafeBlocks == MapSeq(OfKind([m], UnsafeBlock), m => UnsafeBlockOf(m, code))
    ensures Visit(m, code).modules == MapSeq(OfKind([m], ModItem), ModuleOf)
  {
    OneOfKind(m);
    KindsDistinct();
    MapSeqSmall(m, m => FunctionOf(m, code));
    MapSeqSmall(m, m => StructOf(m, code));
    MapSeqSmall(m, m => EnumOf(m, code));
    MapSeqSmall(m, m => TraitOf(m, code));
    MapSeqSmall(m, ImplOf);
    MapSeqSmall(m, m => UnsafeBlockOf(m, code));
    MapSeqSmall(m, ModuleOf);
    var k := m.kind;
    if k == FunctionItem {
      assert Visit(m, code) == Empty.(functions := [FunctionOf(m, code)]);
    } else if k == StructItem {
      assert Visit(m, code) == Empty.(structs := [StructOf(m, code)]);
    } else if k == EnumItem {
      assert Visit(m, code) == Empty.(enums := [EnumOf(m, code)]);
    } else if k == TraitItem {
      assert Visit(m, code) == Empty.(traits := [TraitOf(m, code)]);
    } else if k == ImplItem {
      assert Visit(m, code) == Empty.(impls := [ImplOf(m)]);
    } else if k == UnsafeBlock {
      assert Visit(m, code) == Empty.(unsafeBlocks := [UnsafeBlockOf(m, code)]);
    } else if k == ModItem {
      assert Visit(m, code) == Empty.(modules := [ModuleOf(m)]);
    } else {
      assert Visit(m, code) == Empty;
    }
  }

  lemma OneOfKind(m: Node)
    ensures forall kind :: OfKind([m], kind) == if m.kind == kind then [m] else []
  {
    assert [m][1..] == [];
  }

  /** Visiting a list of nodes yields, for each kind, one record per node of that
      kind, in the order of the list. */
  lemma {:induction false} VisitAllKinds(ms: seq<Node>, code: string)
    ensures VisitAll(ms, code).functions == MapSeq(OfKind(ms, FunctionItem), m => FunctionOf(m, code))
    ensures VisitAll(ms, code).structs == MapSeq(OfKind(ms, StructItem), m => StructOf(m, code))
    ensures VisitAll(ms, code).enums == MapSeq(OfKind(ms, EnumItem), m => EnumOf(m, code))
    ensures VisitAll(ms, code).traits == MapSeq(OfKind(ms, TraitItem), m => TraitOf(m, code))
    ensures VisitAll(ms, code).impls == MapSeq(OfKind(ms, ImplItem), ImplOf)
    ensures VisitAll(ms, code).unsafeBlocks == MapSeq(OfKind(ms, UnsafeBlock), m => UnsafeBlockOf(m, code))
    ensures VisitAll(ms, code).modules == MapSeq(OfKind(ms, ModItem), ModuleOf)
  {
    if ms != [] {
      VisitAllKinds(ms[1..], code);
      VisitKinds(ms[0], code);
      assert ms == [ms[0]] + ms[1..];
      OfKindsSplit(ms[0], ms[1..]);
      MapSeqAppend(OfKind([ms[0]], FunctionItem), OfKind(ms[1..], FunctionItem), m => FunctionOf(m, code));
      MapSeqAppend(OfKind([ms[0]], StructItem), OfKind(ms[1..], StructItem), m => StructOf(m, code));
      MapSeqAppend(OfKind([ms[0]], EnumItem), OfKind(ms[1..], EnumItem), m => EnumOf(m, code));
      MapSeqAppend(OfKind([ms[0]], TraitItem), OfKind(ms[1..], TraitItem), m => TraitOf(m, code));
      MapSeqAppend(OfKind([ms[0]], ImplItem), OfKind(ms[1..], ImplItem), ImplOf);
      MapSeqAppend(OfKind([ms[0]], UnsafeBlock), OfKind(ms[1..], UnsafeBlock), m => UnsafeBlockOf(m, code));
      MapSeqAppend(OfKind([ms[0]], ModItem), OfKind(ms[1..], ModItem), ModuleOf);
    }
  }

  lemma OfKindsSplit(m: Node, rest: seq<Node>)
    ensures forall kind :: OfKind([m] + rest, kind) == OfKind([m], kind) + OfKind(rest, kind)
  {
    forall kind
      ensures OfKind([m] + rest, kind) == OfKind([m], kind) + OfKind(rest, kind)
    {
      assert ([m] + rest)[1..] == rest;
      assert [m][1..] == [];
    }
  }

  /** Each list of a walk holds one record per node of its kind, in pre-order. */
  lemma WalkKinds(n: Node, code: string)
    ensures Walk(n, code).functions == MapSeq(OfKind(PreOrder(n), FunctionItem), m => FunctionOf(m, code))
    ensures Walk(n, code).structs == MapSeq(OfKind(PreOrder(n), StructItem), m => StructOf(m, code))
    ensures Walk(n, code).enums == MapSeq(OfKind(PreOrder(n), EnumItem), m => EnumOf(m, code))
    ensures Walk(n, code).traits == MapSeq(OfKind(PreOrder(n), TraitItem), m => TraitOf(m, code))
    ensures Walk(n, code).impls == MapSeq(OfKind(PreOrder(n), ImplItem), ImplOf)
    ensures Walk(n, code).unsafeBlocks == MapSeq(OfKind(PreOrder(n), UnsafeBlock), m => UnsafeBlockOf(m, code))
    ensures Walk(n, code).modules == MapSeq(OfKind(PreOrder(n), ModItem), ModuleOf)
  {
    WalkIsPreOrder(n, code);
    VisitAllKinds(PreOrder(n), code);
  }

  /** Every function item anywhere in the tree, one nested in an impl block or in
      another function included, has its own function record. */
  lemma NestedFunctionRecorded(n: Node, k: nat, m: Node, code: string)
    requires k < |n.children| && m in PreOrder(n.children[k]) && m.kind == FunctionItem
    ensures FunctionOf(m, code) in Walk(n, code).functions
  {
    DescendantInPreOrder(n, k, m);
    WalkKinds(n, code);
    var fs := OfKind(PreOrder(n), FunctionItem);
    var j :| 0 <= j < |fs| && fs[j] == m;
    assert Walk(n, code).functions[j] == FunctionOf(m, code);
  }

  /** Trait and impl records never list methods. */
  lemma MethodListsEmpty(n: Node, code: string)
    ensures forall t :: t in Walk(n, code).traits ==> t.methods == []
    ensures forall b :: b in Walk(n, code).impls ==> b.methods == []
  {
    WalkKinds(n, code);
  }

  /** Every node of `ms` can be visited without raising. */
  predicate AllVisitFit(ms: seq<Node>, lineCount: nat)
  {
    forall k :: 0 <= k < |ms| ==> VisitFits(ms[k], lineCount)
  }

  lemma AllVisitFitAppend(a: seq<Node>, b: seq<Node>, lineCount: nat)
    ensures AllVisitFit(a + b, lineCount) <==> AllVisitFit(a, lineCount) && AllVisitFit(b, lineCount)
  {
    if AllVisitFit(a, lineCount) && AllVisitFit(b, lineCount) {
      forall k | 0 <= k < |a + b|
        ensures VisitFits((a + b)[k], lineCount)
      {
        if k >= |a| {
          assert (a + b)[k] == b[k - |a|];
        }
      }
    }
    if AllVisitFit(a + b, lineCount) {
      forall k | 0 <= k < |a|
        ensures VisitFits(a[k], lineCount)
      {
        assert (a + b)[k] == a[k];
      }
      forall k | 0 <= k < |b|
        ensures VisitFits(b[k], lineCount)
      {
        assert (a + b)[|a| + k] == b[k];
      }
    }
  }

  /** A walk raises exactly when some node of the tree whose rule reads a doc comment
      starts past the last line. */
  lemma {:induction false} FitsIsPreOrder(n: Node, lineCount: nat)
    ensures Fits(n, lineCount) <==> AllVisitFit(PreOrder(n), lineCount)
    decreases n, 1
  {
    FitsAllIsPreOrder(n.children, lineCount);
    AllVisitFitAppend([n], PreOrderAll(n.children), lineCount);
  }

  lemma {:induction false} FitsAllIsPreOrder(ns: seq<Node>, lineCount: nat)
    ensures FitsAll(ns, lineCount) <==> AllVisitFit(PreOrderAll(ns), lineCount)
    decreases ns, 0
  {
    if ns != [] {
      FitsIsPreOrder(ns[0], lineCount);
      FitsAllIsPreOrder(ns[1..], lineCount);
      AllVisitFitAppend(PreOrder(ns[0]), PreOrderAll(ns[1..]), lineCount);
    }
  }
}
