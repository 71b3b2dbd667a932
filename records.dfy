/**
 * The declaration records the extractor emits, one shape per declaration kind, the
 * seven record lists of one file or of a whole crate (`Declarations`), and the
 * mutable dictionary of seven lists that the extractor and the aggregator append
 * into (`KindLists`). Keys of the persisted document map to fields as follows:
 * `functions`, `structs`, `enums`, `traits`, `impls`, `unsafe_blocks`, `modules`.
 */
module Records {
  import opened SyntaxTree

  /** `{"start": start_point, "end": end_point}` of a node. */
  datatype Location = Location(start: Point, end: Point)

  /** `{"name": ..., "type": ...}` of one function parameter. */
  datatype Param = Param(name: string, typ: string)

  datatype FunctionRecord = FunctionRecord(
    name: string,
    isPub: bool,
    isUnsafe: bool,
    params: seq<Param>,
    returnType: string,
    docComment: string,
    location: Location)

  /** `{"name": ..., "type": ..., "is_pub": ...}` of one struct field. */
  datatype Field = Field(name: string, typ: string, isPub: bool)

  datatype StructRecord = StructRecord(
    name: string,
    isPub: bool,
    fields: seq<Field>,
    docComment: string,
    location: Location)

  datatype EnumRecord = EnumRecord(
    name: string,
    isPub: bool,
    variants: seq<string>,
    docComment: string,
    location: Location)

  datatype TraitRecord = TraitRecord(
    name: string,
    isPub: bool,
    methods: seq<string>,
    docComment: string,
    location: Location)

  /** An impl block: `type` and `trait` keys of the record. */
  datatype ImplRecord = ImplRecord(
    typeName: string,
    traitName: string,
    methods: seq<string>,
    location: Location)

  datatype UnsafeBlockRecord = UnsafeBlockRecord(code: string, location: Location)

  datatype ModuleRecord = ModuleRecord(name: string, isPub: bool, location: Location)

  /** The seven record lists, each in the order the records were produced. */
  datatype Declarations = Declarations(
    functions: seq<FunctionRecord>,
    structs: seq<StructRecord>,
    enums: seq<EnumRecord>,
    traits: seq<TraitRecord>,
    impls: seq<ImplRecord>,
    unsafeBlocks: seq<UnsafeBlockRecord>,
    modules: seq<ModuleRecord>)
  {
    /** Each list of `this` followed by the same list of `other`. */
    function Append(other: Declarations): Declarations
    {
      Declarations(
        functions + other.functions,
        structs + other.structs,
        enums + other.enums,
        traits + other.traits,
        impls + other.impls,
        unsafeBlocks + other.unsafeBlocks,
        modules + other.modules)
    }
  }

  /** Seven empty lists. */
  const Empty := Declarations([], [], [], [], [], [], [])

  /** The seven lists of a result dictionary, which its owner extends in place. */
  class KindLists {
    var functions: seq<FunctionRecord>
    var structs: seq<StructRecord>
    var enums: seq<EnumRecord>
    var traits: seq<TraitRecord>
    var impls: seq<ImplRecord>
    var unsafeBlocks: seq<UnsafeBlockRecord>
    var modules: seq<ModuleRecord>

    function Contents(): Declarations
      reads this
    {
      Declarations(functions, structs, enums, traits, impls, unsafeBlocks, modules)
    }

    constructor ()
      ensures Contents() == Empty
    {
      functions, structs, enums, traits := [], [], [], [];
      impls, unsafeBlocks, modules := [], [], [];
    }

    method AddFunction(f: FunctionRecord)
      modifies this
      ensures Contents() == old(Contents()).Append(Empty.(functions := [f]))
    {
      functions := functions + [f];
    }

    method AddStruct(s: StructRecord)
      modifies this
      ensures Contents() == old(Contents()).Append(Empty.(structs := [s]))
    {
      structs := structs + [s];
    }

    method AddEnum(e: EnumRecord)
      modifies this
      ensures Contents() == old(Contents()).Append(Empty.(enums := [e]))
    {
      enums := enums + [e];
    }

    method AddTrait(t: TraitRecord)
      modifies this
      ensures Contents() == old(Contents()).Append(Empty.(traits := [t]))
    {
      traits := traits + [t];
    }

    method AddImpl(i: ImplRecord)
      modifies this
      ensures Contents() == old(Contents()).Append(Empty.(impls := [i]))
    {
      impls := impls + [i];
    }

    method AddUnsafeBlock(u: UnsafeBlockRecord)
      modifies this
      ensures Contents() == old(Contents()).Append(Empty.(unsafeBlocks := [u]))
    {
      unsafeBlocks := unsafeBlocks + [u];
    }

    method AddModule(m: ModuleRecord)
      modifies this
      ensures Contents() == old(Contents()).Append(Empty.(modules := [m]))
    {
      modules := modules + [m];
    }

    /** `extend` of each of the seven lists with the matching list of `d`. */
    method Extend(d: Declarations)
      modifies this
      ensures Contents() == old(Contents()).Append(d)
    {
      functions := functions + d.functions;
      structs := structs + d.structs;
      enums := enums + d.enums;
      traits := traits + d.traits;
      impls := impls + d.impls;
      unsafeBlocks := unsafeBlocks + d.unsafeBlocks;
      modules := modules + d.modules;
    }
  }

  /** Appending the empty lists changes nothing, and appending is associative. */
  lemma AppendLaws(a: Declarations, b: Declarations, c: Declarations)
    ensures a.Append(Empty) == a && Empty.Append(a) == a
    ensures a.Append(b).Append(c) == a.Append(b.Append(c))
  {
    assert a.functions + [] == a.functions;
  }

  /** Appending a list's last part to a prefix already appended. */
  lemma AppendStep(v: Declarations, pre: Declarations, w: Declarations, post: Declarations, d: Declarations)
    requires d == v.Append(pre) && post == pre.Append(w)
    ensures d.Append(w) == v.Append(post)
  {
    AppendLaws(v, pre, w);
  }
}
