/** The records the section parsers produce and the section identifiers
    they match (section 5.5.2 of the WebAssembly Core Specification). */
module Types {
  import opened Parsing

  /** The kinds of module section, each with its one-byte identifier. */
  datatype ModuleSection =
    | Custom | Type | Import | Function | Table | Memory | Global
    | Export | Start | Element | Code | Data | DataCount
  {
    /** `section as u8`. */
    function Id(): (b: byte)
      ensures b <= 12
    {
      match this
      case Custom => 0
      case Type => 1
      case Import => 2
      case Function => 3
      case Table => 4
      case Memory => 5
      case Global => 6
      case Export => 7
      case Start => 8
      case Element => 9
      case Code => 10
      case Data => 11
      case DataCount => 12
    }
  }

  /** No two section kinds share an identifier byte. */
  lemma IdInjective(a: ModuleSection, b: ModuleSection)
    ensures a.Id() == b.Id() ==> a == b
  {
  }

  /** A custom section: a UTF-8 name and opaque contents. */
  datatype Custom = Custom(name: seq<byte>, contents: seq<byte>)

  /** The value types a function type refers to (section 5.3 of the
      WebAssembly Core Specification); their decoding is not modelled. */
  datatype ValueType = I32 | I64 | F32 | F64 | V128 | FuncRef | ExternRef

  /** A function type: parameter types and result types, in order. */
  datatype FunctionType = FunctionType(parameters: seq<ValueType>, results: seq<ValueType>)
}
