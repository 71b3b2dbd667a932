# RustFuzz core in Dafny

RustFuzz builds fuzzing harnesses for a Rust crate. Its `preprocess` command
parses every `.rs` file of the crate with the tree-sitter Rust grammar. It walks
each syntax tree and records every function, struct, enum, trait, impl block,
unsafe block and module it meets. It merges the records of all files into one
analysis document.

The `generate` command reads that document and picks candidate target functions
for the chosen task. It then makes a number of attempts. Each attempt samples a
small set of candidates and builds a prompt from their records. It asks a language
model for a `libfuzzer` harness, cleans the reply up into a code block, and
writes it to `fuzz_target_<n>.rs`.

This project models those four parts:

- the declaration extractor (`RustAnalyzer`, over `SyntaxTree` and `Records`);
- the harness synthesizer (`RustGenerator`);
- the aggregation loop of `preprocess` (`Preprocess`);
- the candidate and attempt logic of `generate` (`Generate`).

The model follows the source's own shape. The walk, the record builders, the
list-collecting scans, the backward doc-comment scan, the prompt builder, the
lookup loop and the two command loops are methods with loops. The result
dictionary is the class `Records.KindLists`, whose seven lists the builders and the
aggregator extend in place. Each method is proved equal to a specification
function, and the properties are proved about those functions.

Those specification functions carry no contract of their own; the rows of the
methods and lemmas below state them. They are `RustAnalyzer.Walk`,
`RustAnalyzer.Visit` and `RustAnalyzer.Analysis`, `RustGenerator.Prompt` and
`RustGenerator.Entry`, and `Preprocess.Aggregate` and `Preprocess.FilesTotal`.

Three behaviours of the code are evidently not what its authors meant:
- the fields of a trait impl's record come out swapped;
- structs, enums, traits and fields are looked up by a node kind the grammar never
  gives their names, so their names come out empty;
- an unclosed code block loses its last character.

 Each is modelled twice, under "## Findings": once as written,
with a lemma that shows the discrepancy, and once corrected. The rest of the model
uses the corrected form.

`Text` models the Python string operations the code relies on:

- `find`, which returns -1 when there is no match;
- slicing, which clamps its bounds and accepts negative ones;
- `strip`, with Python's white-space set;
- `split` and `join` on one character;
- `str` of a natural number;
- `repr` of a string.

## Model

| member | source | states |
|---|---|---|
| RustAnalyzer.KindsDistinct | processor/rust_analyzer.py:61-74 | the seven kinds the dispatch tests are different strings, so at most one rule fires for a node |
| RustAnalyzer.GetName | processor/rust_analyzer.py:174-179 | the name is the text of the first `identifier` child, `""` when there is none |
| RustAnalyzer.GetTypeName | processor/rust_analyzer.py:174-179 | corrected, a struct, enum or trait is named by the text of its first `type_identifier` child, `""` when there is none |
| RustAnalyzer.GetFieldName | processor/rust_analyzer.py:174-179 | corrected, a field is named by the text of its first `field_identifier` child, `""` when there is none |
| RustAnalyzer.TypeNameAsWritten | processor/rust_analyzer.py:174-179 | as written, a declaration named by a `type_identifier` and with no `identifier` child gets the empty name; corrected, it gets the `type_identifier`'s text |
| RustAnalyzer.FieldNameAsWritten | processor/rust_analyzer.py:238-244 | as written, a field named by a `field_identifier` gets the empty name; corrected, its entry carries that text |
| RustAnalyzer.DeclNames | processor/rust_analyzer.py:96-136 | corrected, struct, enum and trait records carry the text of the first `type_identifier` child as their name |
| RustAnalyzer.IsPub | processor/rust_analyzer.py:181-186 | public exactly when the first `visibility_modifier` child reads `pub`; `pub(crate)` and no modifier are private |
| RustAnalyzer.IsUnsafe | processor/rust_analyzer.py:188-193 | unsafe exactly when some direct child is the `unsafe` token |
| RustAnalyzer.TypeAfterColon | processor/rust_analyzer.py:215-221 | the type is the child after the first `:` that has a successor, `""` when none has one |
| RustAnalyzer.GetReturnType | processor/rust_analyzer.py:223-230 | the return type is the child after the first followed `->`, `()` when there is none |
| RustAnalyzer.GetImplType | processor/rust_analyzer.py:270-275 | the impl's `type` is the text of the first `type_identifier` child, `""` when there is none |
| RustAnalyzer.GetImplTrait | processor/rust_analyzer.py:277-284 | the impl's `trait` is the child after the first followed `for`, `""` otherwise |
| RustAnalyzer.GetTraitMethods | processor/rust_analyzer.py:265-268 | a trait's method list is always empty |
| RustAnalyzer.GetImplMethods | processor/rust_analyzer.py:286-289 | an impl's method list is always empty |
| RustAnalyzer.TraitImplFieldsAsWritten | processor/rust_analyzer.py:270-284 | as written, for `impl Trait for Type` the record's `type` is the trait name and its `trait` is the implementing type |
| RustAnalyzer.GenericTraitImplAsWritten | processor/rust_analyzer.py:270-284 | as written, a trait impl with no plain `type_identifier` child, such as `impl<T> From<T> for W<T>`, gets an empty `type` and the implementing type as its `trait` |
| SyntaxTree.TextBeforeFirst | processor/rust_analyzer.py:277-284 | the text of the node right before the first node of the kind that has a successor, the default when there is none or it comes first |
| RustAnalyzer.ImplTraitName | processor/rust_analyzer.py:277-284 | corrected, the trait is the text of the child right before the first followed `for`, `""` for an impl that is not a trait impl |
| RustAnalyzer.TraitImplFields | processor/rust_analyzer.py:138-149 | corrected, for every trait impl the record's `type` is the child after the first followed `for` and its `trait` is the child before it, whatever their kinds and whatever `unsafe`, type parameters or `!` come first |
| RustAnalyzer.InherentImplAsWritten | processor/rust_analyzer.py:270-284 | the correction changes nothing for an impl without a followed `for`, whose record has an empty trait |
| RustAnalyzer.InherentImplFields | processor/rust_analyzer.py:270-284 | for an inherent `impl Type` the record names the type and an empty trait |
| RustAnalyzer.CollectOwn | processor/rust_analyzer.py:200-205 | the inner loop appends `f` of each child of the requested kind, in order |
| RustAnalyzer.CollectItems | processor/rust_analyzer.py:195-206 | the nested loop gives `f` of each item child of each list child, list by list, in source order |
| RustAnalyzer.GetParams | processor/rust_analyzer.py:195-206 | one `{name, type}` per `parameter` of each `parameters` child, and no other entry |
| RustAnalyzer.GetFields | processor/rust_analyzer.py:232-244 | one `{name, type, is_pub}` per `field_declaration` of each `field_declaration_list` child, named as corrected (see "## Findings") |
| RustAnalyzer.GetEnumVariants | processor/rust_analyzer.py:255-263 | the name of each `enum_variant` of each `enum_variant_list` child, in order |
| RustAnalyzer.Lines | processor/rust_analyzer.py:295 | splitting the text on newlines gives at least one line |
| RustAnalyzer.DocLinesBefore | processor/rust_analyzer.py:297-303 | the backward scan keeps no more lines than it looks at, and only doc lines |
| RustAnalyzer.DocLinesBeforeBlock | processor/rust_analyzer.py:291-305 | the kept lines are the doc lines of the block of doc and blank lines right above the declaration, in source order |
| RustAnalyzer.DocComment | processor/rust_analyzer.py:291-305 | a declaration on the first line has an empty doc comment |
| RustAnalyzer.GetDocComment | processor/rust_analyzer.py:291-305 | the loop computes the joined doc lines; it raises (`None`) exactly when the start row is past the last line |
| RustAnalyzer.ExtractFunction | processor/rust_analyzer.py:80-94 | appends exactly the function's record to `functions`, or raises and leaves the lists as they were |
| RustAnalyzer.ExtractStruct | processor/rust_analyzer.py:96-108 | appends exactly the struct's record, under its corrected name, to `structs`, or raises and changes nothing |
| RustAnalyzer.ExtractEnum | processor/rust_analyzer.py:110-122 | appends exactly the enum's record, under its corrected name, to `enums`, or raises and changes nothing |
| RustAnalyzer.ExtractTrait | processor/rust_analyzer.py:124-136 | appends exactly the trait's record, under its corrected name, to `traits`, or raises and changes nothing |
| RustAnalyzer.ExtractImpl | processor/rust_analyzer.py:138-149 | appends exactly the impl's record to `impls`, with the type and trait of a trait impl the right way round (see "## Findings") |
| RustAnalyzer.ExtractUnsafeBlock | processor/rust_analyzer.py:151-160 | appends the block's own text and location to `unsafe_blocks` |
| RustAnalyzer.ExtractModule | processor/rust_analyzer.py:162-172 | appends exactly the module's record to `modules` |
| RustAnalyzer.VisitNode | processor/rust_analyzer.py:61-74 | runs the one builder of the node's kind, if any; it raises exactly when that builder reads a doc comment past the end |
| RustAnalyzer.Traverse | processor/rust_analyzer.py:57-78 | the recursive walk appends the records of the node and then of each subtree in order; below Python's recursion limit, it raises exactly when some node does not fit |
| RustAnalyzer.AnalyzeFile | processor/rust_analyzer.py:28-55 | yields `{}` for an unreadable file, a path outside the crate or a raising walk; otherwise the relative name and the walk's records (for a tree within Python's recursion limit) |
| RustAnalyzer.WalkIsPreOrder | processor/rust_analyzer.py:57-78 | the walk visits every node of the tree exactly once, in pre-order, descending whether or not a rule matched |
| RustAnalyzer.VisitKinds | processor/rust_analyzer.py:61-74 | visiting one node gives one record in the list of its kind and nothing in the other six |
| RustAnalyzer.VisitAllKinds | processor/rust_analyzer.py:57-78 | visiting a list of nodes gives, per kind, one record per node of that kind, in list order |
| RustAnalyzer.WalkKinds | processor/rust_analyzer.py:57-78 | each of the seven lists of a walk holds one record per node of its kind, in pre-order, and nothing else |
| RustAnalyzer.NestedFunctionRecorded | processor/rust_analyzer.py:76-78 | a function item nested anywhere below the root, inside an impl or another function included, has its own record |
| RustAnalyzer.MethodListsEmpty | processor/rust_analyzer.py:265-289 | trait and impl records never list methods |
| RustAnalyzer.FitsIsPreOrder | processor/rust_analyzer.py:35-55 | below Python's recursion limit, the walk raises exactly when some node of the tree whose rule reads a doc comment starts past the last line |
| SyntaxTree.FirstOfKind | processor/rust_analyzer.py:176-179 | the scan stops at the first child of the kind; `None` exactly when no child has it |
| SyntaxTree.FirstText | processor/rust_analyzer.py:174-179 | the text of the first child of the kind, `""` when there is none |
| SyntaxTree.TextAfterFirst | processor/rust_analyzer.py:223-230 | the text after the first child of the kind that has a next sibling; the default when none has one |
| SyntaxTree.OfKind | processor/rust_analyzer.py:200-201 | the filter keeps exactly the nodes of the kind, and no more nodes than it was given |
| SyntaxTree.Items | processor/rust_analyzer.py:195-206 | every collected item is of the item kind |
| SyntaxTree.PreOrder | processor/rust_analyzer.py:76-78 | the pre-order of a tree starts with its root |
| SyntaxTree.DescendantInPreOrder | processor/rust_analyzer.py:76-78 | every node below a child is in its parent's pre-order, after the parent |
| Text.Find | src/generator/rust_generator.py:124-125 | `find` returns the first occurrence at or after `start`, or -1 exactly when there is none |
| Text.Contains | src/generator/rust_generator.py:123 | `sub in s` holds exactly when `sub` occurs somewhere in `s` |
| Text.Slice | src/generator/rust_generator.py:126 | the Python slice equals the plain subsequence for in-range bounds, and `[a:-1]` drops the last character |
| Text.Strip | processor/rust_analyzer.py:299 | the stripped text neither starts nor ends with white space and is no longer than the input |
| Text.StripRemovesSpace | processor/rust_analyzer.py:299 | `strip` removes only white space, at the front and at the back |
| Text.Split | processor/rust_analyzer.py:295 | `split` gives at least one piece and no piece contains the separator |
| Text.JoinSplit | processor/rust_analyzer.py:295 | joining the pieces of a split with the separator gives the text back |
| Text.SplitJoin | processor/rust_analyzer.py:295 | splitting a join of separator-free pieces gives the pieces back |
| Text.NatToString | cli/generate.py:108 | `str(n)` is a non-empty string of decimal digits, one digit exactly when `n < 10` |
| Text.NatToStringInjective | cli/generate.py:108 | different numbers have different decimal texts |
| Text.Repr | src/generator/rust_generator.py:96 | `repr` of a string is quoted with the same quote at both ends |
| Records.KindLists.constructor | processor/rust_analyzer.py:39-48 | a fresh result dictionary has seven empty lists |
| Records.KindLists.AddFunction | processor/rust_analyzer.py:94 | appends the record to `functions` and leaves the other lists unchanged |
| Records.KindLists.AddStruct | processor/rust_analyzer.py:108 | appends the record to `structs` only |
| Records.KindLists.AddEnum | processor/rust_analyzer.py:122 | appends the record to `enums` only |
| Records.KindLists.AddTrait | processor/rust_analyzer.py:136 | appends the record to `traits` only |
| Records.KindLists.AddImpl | processor/rust_analyzer.py:149 | appends the record to `impls` only |
| Records.KindLists.AddUnsafeBlock | processor/rust_analyzer.py:160 | appends the record to `unsafe_blocks` only |
| Records.KindLists.AddModule | processor/rust_analyzer.py:172 | appends the record to `modules` only |
| Records.KindLists.Extend | cli/preprocess.py:77-83 | extends each of the seven lists with the same list of a file result |
| Records.AppendLaws | cli/preprocess.py:54-83 | extending with empty lists changes nothing, and extending in two steps equals extending once with both |
| RustGenerator.SelectFunctions | src/generator/rust_generator.py:31-41 | a pool no larger than the size comes back whole; otherwise a sample of `size` distinct positions; a negative size raises |
| RustGenerator.SampleFromPool | src/generator/rust_generator.py:41 | a sample has the requested size, at most the pool's, and holds no name more often than the pool |
| RustGenerator.GetFunctionInfo | src/generator/rust_generator.py:69-76 | gives the first record with the name; `None` exactly when no record has it |
| RustGenerator.Found | src/generator/rust_generator.py:53-55 | a selected name adds at most one record, none exactly when it has no record |
| RustGenerator.Resolve | src/generator/rust_generator.py:51-55 | resolution gives no more records than names, each one of the known records |
| RustGenerator.ResolveAppend | src/generator/rust_generator.py:51-55 | resolution keeps the order of the names: resolving a join is the join of the resolutions |
| RustGenerator.ResolveEmpty | src/generator/rust_generator.py:51-58 | nothing resolves exactly when no selected name has a record, an empty selection included |
| RustGenerator.GenerateFuzzTarget | src/generator/rust_generator.py:43-67 | the lookup loop and the rest compute `FuzzTarget` for the selection |
| RustGenerator.FuzzTarget | src/generator/rust_generator.py:43-67 | raises "no valid function" exactly when nothing resolves; a success always has a `use` or names `libfuzzer_sys` |
| RustGenerator.BuildPrompt | src/generator/rust_generator.py:78-116 | the `+=` loop builds the fixed head, one entry per record in order, and the fixed tail |
| RustGenerator.EntriesSplit | src/generator/rust_generator.py:94-100 | the entries of the records are those before a record, its own entry and those after it |
| RustGenerator.PromptHasEntries | src/generator/rust_generator.py:94-100 | every record's name line is in the prompt, and its doc line when its doc comment is non-empty |
| RustGenerator.HeaderHasUse | src/generator/rust_generator.py:134-138 | the standard header contains a `use` statement |
| RustGenerator.Extract | src/generator/rust_generator.py:122-130 | a reply without a fence is kept as it is; with a fence the block is at least three characters shorter |
| RustGenerator.PostProcess | src/generator/rust_generator.py:118-141 | the header is prepended exactly when the block has neither `use ` nor `libfuzzer_sys`, so the result always has one |
| RustGenerator.ExtractRustBlock | src/generator/rust_generator.py:123-126 | a `` ```rust `` block closed by a fence yields its stripped contents, when the text before it has no `` ```rust `` and the block has no fence and does not end in a backtick |
| RustGenerator.ExtractBareBlock | src/generator/rust_generator.py:127-130 | a bare block closed by a fence yields its stripped contents, when the reply has no `` ```rust `` and neither the text before nor the block has a fence or ends in a backtick |
| RustGenerator.BlockAfterClosedAgrees | src/generator/rust_generator.py:124-126 | when a closing fence follows, the block as written and the corrected block are the same |
| RustGenerator.UnclosedBlockAsWritten | src/generator/rust_generator.py:123-126 | as written, an unclosed `` ```rust `` block loses its last character, since `find` gives -1 and `[start:-1]` stops before the end |
| RustGenerator.UnclosedLineBlock | src/generator/rust_generator.py:123-126 | a one-line unclosed block such as `` ```rust `` + `"\nfn f() {}"` gives `fn f() {` as written and `fn f() {}` corrected |
| RustGenerator.ExtractUnclosedBlock | src/generator/rust_generator.py:123-126 | corrected, an unclosed `` ```rust `` block yields all of its text after the fence, stripped |
| RustGenerator.ParamRepr | src/generator/rust_generator.py:96 | a parameter prints as a Python dict display that starts with `{'name': ` followed by the repr of the name, and ends with `}` |
| RustGenerator.ParamsRepr | src/generator/rust_generator.py:96 | a parameter list prints as a bracketed list display, `[]` when it is empty |
| Preprocess.SourcePaths | cli/preprocess.py:52 | the source paths default to `["src"]` |
| Preprocess.Preprocess | cli/preprocess.py:40-86 | nothing is analysed when the document exists and `force` is off; otherwise the nested `extend` loops compute `Aggregate` |
| Preprocess.AggregateAppend | cli/preprocess.py:64-83 | records stay in source-path order: the aggregate of joined path lists is the join of the aggregates |
| Preprocess.FilesTotalAppend | cli/preprocess.py:73-83 | records stay in file order within a path |
| Preprocess.MissingPathSkipped | cli/preprocess.py:64-68 | a missing source path adds nothing and the later paths are still taken |
| Preprocess.FailedFileSkipped | cli/preprocess.py:73-86 | a file whose analysis gave `{}` adds nothing and the later files are still taken |
| Preprocess.NoPathsNoRecords | cli/preprocess.py:54-68 | with no existing source path the result is seven empty lists |
| Preprocess.AggregateFunctionFrom | cli/preprocess.py:64-83 | every aggregated function record comes from one analysed file under one of the source paths |
| Preprocess.FileRecordsAre | cli/preprocess.py:77-83 | a failed file contributes nothing, an analysed one exactly its walk's records; the `file` key is not merged |
| Generate.Candidates | cli/generate.py:73-84 | `given` with an empty list has no candidates, with a list one per comma-separated piece; the other tasks have at most one per function record |
| Generate.CandidatesAre | cli/generate.py:73-84 | a name is a `given` candidate exactly when some piece of the list strips to it, and an `allcover` or `autoscale` candidate exactly when some public record has it |
| Generate.GivenNamesAre | cli/generate.py:75 | a name is among the given names exactly when some comma-separated piece strips to it |
| Generate.GivenNames | cli/generate.py:75 | one name per comma-separated piece, none starting or ending with white space |
| Generate.PublicNames | cli/generate.py:79 | no more public names than function records, and each is the name of a public record |
| Generate.SetSize | cli/generate.py:101 | the function set size is the configured one, 3 when none is configured |
| Generate.TargetFileName | cli/generate.py:108 | attempt `i` writes `fuzz_target_` followed by the decimal `i + 1` and `.rs` |
| Generate.Attempts | cli/generate.py:80-96 | at most `count` attempts and none for a negative count; `autoscale` makes at most one per candidate |
| Generate.TargetFileNameInjective | cli/generate.py:108 | different attempts write files with different names |
| Generate.Generate | cli/generate.py:50-115 | no document, nothing is done; otherwise one outcome per attempt, and exactly the successful ones are written, with their count |
| Generate.Attempt | cli/generate.py:97-110 | an attempt ends with what generating from a possible selection gives, or with the selection's error |
| Generate.Written | cli/generate.py:95-112 | no more files are written than attempts are made |
| Generate.WrittenAttempts | cli/generate.py:96-112 | each written file comes from a successful attempt and is named after it; attempts of successive files increase |
| Generate.WrittenNamesDistinct | cli/generate.py:108 | no two written files share a name |
| Generate.WrittenHasUse | cli/generate.py:105-110 | every written harness has a `use` or names `libfuzzer_sys` |
| Generate.NoTargetsFails | cli/generate.py:97-105 | with no candidates an attempt always fails |
| Generate.NoTargetsNoFiles | cli/generate.py:73-115 | with no candidates nothing is written |
| Generate.GivenEmpty | cli/generate.py:73-75 | `given` with an empty list has no candidates |
| Generate.GivenNamesJoin | cli/generate.py:74-75 | the given candidates are the comma-separated pieces in order; joined back they give the list when no piece is padded |
| Generate.PublicNamesAre | cli/generate.py:76-79 | a name is an `allcover` candidate exactly when some public record has it |
| Generate.AutoScaleCapped | cli/generate.py:76-84 | `autoscale` has the same candidates as `allcover` and makes at most one attempt per candidate |

## Left out

- Reading files, parsing with tree-sitter, `rglob`, JSON loading and dumping, logging and the progress bar are not modelled. A file is given as its text and tree, or as unreadable. A source path that exists is given as the list of its files, in the search's order.
- The language model and its network clients are not modelled. The model is an oracle `string -> Option<string>` per attempt, where `None` stands for a call that raised.
- `random.sample` is modelled by its contract only: any `size` elements from distinct positions of the pool, in any order.
- Writing a harness file is taken to succeed. The `mkdir` of the target directory is not modelled.
- Text.Repr: escapes of non-printable characters beyond ASCII control characters are not modelled, because they depend on Python's Unicode tables.
- RustAnalyzer.UnsafeBlockOf: the node's byte offsets are used as indices into the text. The two differ for non-ASCII text, which would need a UTF-8 encoding model.
- Generate.PublicNames: a record without an `is_pub` key cannot occur, because every extracted function record has one. The `.get("is_pub", False)` default is not modelled.
- Byte-level decoding errors of `read_text` appear only as an unreadable file.
- The `try`/`except` around each file in `preprocess` has no separate model. `analyze_file` already catches every exception and returns `{}`, which contributes nothing.
- An exception raised inside an attempt of `generate` is modelled as its error value. The outcome is a failure, and the loop goes on.
- The doc-comment scan passes over blank lines and stops only at another non-doc line, as the code does.
- Trait method lists and impl method lists are always empty, as in the code. Nothing more is modelled for them.
- RustAnalyzer.Traverse: Python's recursion limit is not modelled. A tree deeper than that limit makes `_traverse` raise `RecursionError`; the model walks every tree to its leaves.
- RustAnalyzer.AnalyzeFile: for a tree too deep for `_traverse`, the source catches the `RecursionError` and returns `{}`; the model gives `Analyzed` with the walk's records when every node fits.
- RustAnalyzer.ImplOf: the correction covers trait impls only. An impl without a followed `for` keeps the source's rule, the first `type_identifier` child, so a generic inherent impl such as `impl<T> W<T>` has an empty `type`.
- RustAnalyzer.FitsIsPreOrder: it relates the walk's failure to the nodes of the tree only, so it holds below Python's recursion limit.

## Findings

| source | as written | input that shows it | evidently intended | confidence | as-written member | corrected member |
|---|---|---|---|---|---|---|
| processor/rust_analyzer.py:270-284 | `type` is the first `type_identifier` child and `trait` the child after `for`, so in `impl Trait for Type` they are the wrong way round | `impl Display for Foo {}` gives `type` `Display` and `trait` `Foo` | `type` the implementing type `Foo` and `trait` `Display`, as for an inherent impl, where `type` is the implementing type | high, not executed | RustAnalyzer.TraitImplFieldsAsWritten | RustAnalyzer.TraitImplFields |
| processor/rust_analyzer.py:270-284 | a trait impl with a generic or scoped trait and type has no plain `type_identifier` child, so `type` comes out empty | `impl<T> From<T> for W<T> {}` gives `type` `""` and `trait` `W<T>` | `type` `W<T>` (the child after `for`) and `trait` `From<T>` (the child before it) | high, not executed | RustAnalyzer.GenericTraitImplAsWritten | RustAnalyzer.TraitImplFields |
| processor/rust_analyzer.py:174-179 | `_get_name` takes the first `identifier` child, but the tree-sitter Rust grammar names structs, enums and traits by a `type_identifier` | `struct Point { x: i32 }` gives a struct named `""` | the struct named `Point` | high, not executed | RustAnalyzer.TypeNameAsWritten | RustAnalyzer.DeclNames |
| processor/rust_analyzer.py:238-244 | a field's name is read with `_get_name`, but the grammar names struct fields by a `field_identifier` | `struct Point { x: i32 }` gives a field named `""` | the field named `x` | high, not executed | RustAnalyzer.FieldNameAsWritten | RustAnalyzer.GetFieldName |
| src/generator/rust_generator.py:123-130 | with no closing fence `find` gives -1, and the slice `[start:-1]` drops the reply's last character | the reply `` ```rust `` + `"\nfn f() {}"` gives `fn f() {` | the whole text after the opening fence, `fn f() {}` | high, not executed | RustGenerator.UnclosedBlockAsWritten | RustGenerator.ExtractUnclosedBlock |
