// The part of the schema graph of pkg/compatibility/schema.go that the comparator reads.
module Schemas {
  import opened Wrappers

  datatype FieldType =
    | UnknownType | DoubleType | FloatType | Int32Type | Int64Type | Uint32Type | Uint64Type
    | Sint32Type | Sint64Type | Fixed32Type | Fixed64Type | Sfixed32Type | Sfixed64Type
    | BoolType | StringType | BytesType | MessageType | EnumType | MapType

  /** FieldType.String: the table of names ends before the map type, whose name is an index out of range. */
  function TypeName(t: FieldType): Option<string> {
    match t
    case UnknownType => Some("unknown")
    case DoubleType => Some("double")
    case FloatType => Some("float")
    case Int32Type => Some("int32")
    case Int64Type => Some("int64")
    case Uint32Type => Some("uint32")
    case Uint64Type => Some("uint64")
    case Sint32Type => Some("sint32")
    case Sint64Type => Some("sint64")
    case Fixed32Type => Some("fixed32")
    case Fixed64Type => Some("fixed64")
    case Sfixed32Type => Some("sfixed32")
    case Sfixed64Type => Some("sfixed64")
    case BoolType => Some("bool")
    case StringType => Some("string")
    case BytesType => Some("bytes")
    case MessageType => Some("message")
    case EnumType => Some("enum")
    case MapType => None
  }

  /** The names, in full. */
  lemma TypeNamesAre()
    ensures TypeName(UnknownType) == Some("unknown") && TypeName(DoubleType) == Some("double")
            && TypeName(FloatType) == Some("float") && TypeName(Int32Type) == Some("int32")
            && TypeName(Int64Type) == Some("int64") && TypeName(Uint32Type) == Some("uint32")
            && TypeName(Uint64Type) == Some("uint64") && TypeName(Sint32Type) == Some("sint32")
            && TypeName(Sint64Type) == Some("sint64") && TypeName(Fixed32Type) == Some("fixed32")
            && TypeName(Fixed64Type) == Some("fixed64") && TypeName(Sfixed32Type) == Some("sfixed32")
            && TypeName(Sfixed64Type) == Some("sfixed64") && TypeName(BoolType) == Some("bool")
            && TypeName(StringType) == Some("string") && TypeName(BytesType) == Some("bytes")
            && TypeName(MessageType) == Some("message") && TypeName(EnumType) == Some("enum")
            && TypeName(MapType) == None
  {
  }

  datatype FieldLabel = Optional | Required | Repeated

  function LabelName(l: FieldLabel): string {
    match l
    case Optional => "optional"
    case Required => "required"
    case Repeated => "repeated"
  }

  datatype Field = Field(name: string, number: int, fieldType: FieldType, cardinality: FieldLabel, inOneOf: string)

  datatype Message = Message(fullName: string, fields: map<int, Field>, nested: map<string, Message>)

  datatype EnumValue = EnumValue(name: string, number: int)

  datatype EnumSchema = EnumSchema(fullName: string, values: map<int, EnumValue>, valuesByName: map<string, EnumValue>)

  datatype RpcMethod = RpcMethod(name: string, inputType: string, outputType: string, clientStreaming: bool,
                                 serverStreaming: bool)

  datatype Service = Service(fullName: string, methods: map<string, RpcMethod>)

  datatype SchemaGraph = SchemaGraph(packageName: string, messages: map<string, Message>,
                                     enums: map<string, EnumSchema>, services: map<string, Service>)
}
