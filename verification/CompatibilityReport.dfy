// What a compatibility check has to report, as a bag of violations: the order in which the comparator
// finds them depends on map iteration.  The prose of a violation (its message and suggestion) is left out.
module CompatibilityReports {
  import opened Wrappers
  import opened Schemas

  datatype Mode = ModeNone | Backward | Forward | Full | BackwardTransitive | ForwardTransitive | FullTransitive

  datatype Level = Info | Warning | Error

  datatype Category = FieldChange | TypeChange | EnumChange | ServiceChange | PackageChange

  datatype Rule =
    | PACKAGE_CHANGED
    | MESSAGE_REMOVED | MESSAGE_ADDED
    | FIELD_REMOVED | FIELD_ADDED | REQUIRED_FIELD_ADDED
    | FIELD_NAME_CHANGED | FIELD_TYPE_CHANGED | FIELD_LABEL_CHANGED | FIELD_ONEOF_CHANGED
    | ENUM_REMOVED | ENUM_ADDED | ENUM_VALUE_REMOVED | ENUM_VALUE_NUMBER_CHANGED | ENUM_VALUE_ADDED
    | SERVICE_REMOVED | SERVICE_ADDED | RPC_REMOVED | RPC_ADDED
    | RPC_INPUT_TYPE_CHANGED | RPC_OUTPUT_TYPE_CHANGED | RPC_CLIENT_STREAMING_CHANGED | RPC_SERVER_STREAMING_CHANGED

  datatype Violation = Violation(rule: Rule, level: Level, category: Category, location: string,
                                 oldValue: string, newValue: string, wireBreaking: bool, sourceBreaking: bool)

  // ---- every violation there is

  function PackageChanged(oldValue: string, newValue: string): Violation {
    Violation(PACKAGE_CHANGED, Error, PackageChange, "package", oldValue, newValue, false, true)
  }

  function MessageRemoved(location: string): Violation {
    Violation(MESSAGE_REMOVED, Error, TypeChange, location, "", "", true, true)
  }

  function MessageAdded(location: string): Violation {
    Violation(MESSAGE_ADDED, Info, TypeChange, location, "", "", false, false)
  }

  function FieldRemoved(level: Level, location: string): Violation {
    Violation(FIELD_REMOVED, level, FieldChange, location, "", "", false, true)
  }

  function FieldAdded(location: string): Violation {
    Violation(FIELD_ADDED, Info, FieldChange, location, "", "", false, false)
  }

  function RequiredFieldAdded(location: string): Violation {
    Violation(REQUIRED_FIELD_ADDED, Error, FieldChange, location, "", "", true, true)
  }

  function FieldNameChanged(location: string, oldValue: string, newValue: string): Violation {
    Violation(FIELD_NAME_CHANGED, Warning, FieldChange, location, oldValue, newValue, false, true)
  }

  function FieldTypeChanged(location: string, oldValue: string, newValue: string): Violation {
    Violation(FIELD_TYPE_CHANGED, Error, TypeChange, location, oldValue, newValue, true, true)
  }

  function FieldLabelChanged(level: Level, location: string, oldValue: string, newValue: string,
                             wireBreaking: bool): Violation
  {
    Violation(FIELD_LABEL_CHANGED, level, FieldChange, location, oldValue, newValue, wireBreaking, true)
  }

  function FieldOneOfChanged(location: string, oldValue: string, newValue: string): Violation {
    Violation(FIELD_ONEOF_CHANGED, Error, FieldChange, location, oldValue, newValue, true, true)
  }

  function EnumRemoved(location: string): Violation {
    Violation(ENUM_REMOVED, Error, EnumChange, location, "", "", true, true)
  }

  function EnumAdded(location: string): Violation {
    Violation(ENUM_ADDED, Info, EnumChange, location, "", "", false, false)
  }

  function EnumValueRemoved(level: Level, location: string): Violation {
    Violation(ENUM_VALUE_REMOVED, level, EnumChange, location, "", "", false, true)
  }

  function EnumValueRenumbered(location: string, oldValue: string, newValue: string): Violation {
    Violation(ENUM_VALUE_NUMBER_CHANGED, Error, EnumChange, location, oldValue, newValue, true, true)
  }

  function EnumValueAdded(location: string): Violation {
    Violation(ENUM_VALUE_ADDED, Info, EnumChange, location, "", "", false, false)
  }

  function ServiceRemoved(location: string): Violation {
    Violation(SERVICE_REMOVED, Error, ServiceChange, location, "", "", true, true)
  }

  function ServiceAdded(location: string): Violation {
    Violation(SERVICE_ADDED, Info, ServiceChange, location, "", "", false, false)
  }

  function RpcRemoved(location: string): Violation {
    Violation(RPC_REMOVED, Error, ServiceChange, location, "", "", true, true)
  }

  function RpcAdded(location: string): Violation {
    Violation(RPC_ADDED, Info, ServiceChange, location, "", "", false, false)
  }

  function RpcInputTypeChanged(location: string, oldValue: string, newValue: string): Violation {
    Violation(RPC_INPUT_TYPE_CHANGED, Error, ServiceChange, location, oldValue, newValue, true, true)
  }

  function RpcOutputTypeChanged(location: string, oldValue: string, newValue: string): Violation {
    Violation(RPC_OUTPUT_TYPE_CHANGED, Error, ServiceChange, location, oldValue, newValue, true, true)
  }

  function RpcClientStreamingChanged(location: string, oldValue: string, newValue: string): Violation {
    Violation(RPC_CLIENT_STREAMING_CHANGED, Error, ServiceChange, location, oldValue, newValue, true, true)
  }

  function RpcServerStreamingChanged(location: string, oldValue: string, newValue: string): Violation {
    Violation(RPC_SERVER_STREAMING_CHANGED, Error, ServiceChange, location, oldValue, newValue, true, true)
  }

  type Bag = multiset<Violation>

  /** The union of all the bags of a map. */
  ghost function Sum<K>(parts: map<K, Bag>): Bag
    decreases |parts|
  {
    if parts == map[] then multiset{}
    else
      var k :| k in parts;
      parts[k] + Sum(parts - {k})
  }

  lemma {:induction false} SumSplit<K>(parts: map<K, Bag>, x: K)
    requires x in parts
    ensures Sum(parts) == parts[x] + Sum(parts - {x})
    decreases |parts|
  {
    var k :| k in parts && Sum(parts) == parts[k] + Sum(parts - {k});
    if k != x {
      SumSplit(parts - {k}, x);
      SumSplit(parts - {x}, k);
      assert parts - {k} - {x} == parts - {x} - {k};
    }
  }

  /** A member of the union comes from one of the bags. */
  lemma {:induction false} SumSource<K>(parts: map<K, Bag>, v: Violation) returns (k: K)
    requires v in Sum(parts)
    ensures k in parts && v in parts[k]
    decreases |parts|
  {
    k :| k in parts && Sum(parts) == parts[k] + Sum(parts - {k});
    if v !in parts[k] {
      k := SumSource(parts - {k}, v);
    }
  }

  lemma SumContains<K>(parts: map<K, Bag>, k: K, v: Violation)
    requires k in parts && v in parts[k]
    ensures v in Sum(parts)
  {
    SumSplit(parts, k);
  }

  // ---- names of places and values

  function At(outer: string, inner: string): string {
    outer + "." + inner
  }

  function Shown(t: FieldType): string {
    match TypeName(t) case Some(s) => s case None => ""
  }

  function Digit(d: nat): char
    requires d < 10
  {
    "0123456789"[d]
  }

  function Digits(n: nat): string {
    if n < 10 then [Digit(n)] else Digits(n / 10) + [Digit(n % 10)]
  }

  function Decimal(n: int): string {
    if n < 0 then "-" + Digits(-n) else Digits(n)
  }

  function Read(digits: string): int {
    if digits == "" then 0
    else 10 * Read(digits[..|digits| - 1]) + (digits[|digits| - 1] as int - '0' as int)
  }

  lemma {:induction false} DigitsRead(n: nat)
    ensures Digits(n) != "" && Read(Digits(n)) == n && (Digits(n)[0] == '0' ==> n == 0 && Digits(n) == "0")
    ensures forall c | c in Digits(n) :: '0' <= c <= '9'
  {
    DigitIs(n % 10);
    if n >= 10 {
      DigitsRead(n / 10);
      assert Digits(n)[..|Digits(n)| - 1] == Digits(n / 10);
    }
    hide Digit;
  }

  lemma DigitIs(d: nat)
    requires d < 10
    ensures '0' <= Digit(d) <= '9' && Digit(d) as int == '0' as int + d
  {
  }

  /** The decimal notation of n: a minus sign if it is negative, and its digits without leading zeros. */
  lemma DecimalReads(n: int)
    ensures Decimal(n) != "" && (n < 0 <==> Decimal(n)[0] == '-')
    ensures var digits := if n < 0 then Decimal(n)[1..] else Decimal(n);
            && digits != "" && (forall c | c in digits :: '0' <= c <= '9') && (digits[0] == '0' ==> digits == "0")
            && Read(digits) == if n < 0 then -n else n
  {
    DigitsRead(if n < 0 then -n else n);
    hide Digits, Read;
    if n >= 0 {
      assert Digits(n)[0] in Digits(n);
    }
  }

  function Truth(b: bool): string {
    if b then "true" else "false"
  }

  // ---- fields

  /** Wire-compatible types other than equal ones, as the table of isTypeCompatible lists them. */
  predicate TablePair(a: FieldType, b: FieldType) {
    match a
    case Int32Type => b.Int64Type? || b.Uint32Type? || b.Uint64Type?
    case Int64Type => b.Int32Type? || b.Uint32Type? || b.Uint64Type?
    case Uint32Type => b.Int32Type? || b.Int64Type? || b.Uint64Type?
    case Uint64Type => b.Int32Type? || b.Int64Type? || b.Uint32Type?
    case Sint32Type => b.Sint64Type?
    case Sint64Type => b.Sint32Type?
    case Fixed32Type => b.Fixed64Type? || b.Sfixed32Type?
    case Fixed64Type => b.Fixed32Type? || b.Sfixed64Type?
    case Sfixed32Type => b.Sfixed64Type? || b.Fixed32Type?
    case Sfixed64Type => b.Sfixed32Type? || b.Fixed64Type?
    case StringType => b.BytesType?
    case BytesType => b.StringType?
    case _ => false
  }

  predicate TypeCompatible(a: FieldType, b: FieldType) {
    a == b || TablePair(a, b)
  }

  /** Reporting the change of a map type asks for a name it does not have. */
  predicate FieldPanics(o: Field, n: Field) {
    !TypeCompatible(o.fieldType, n.fieldType) && (o.fieldType.MapType? || n.fieldType.MapType?)
  }

  function NameChange(location: string, o: Field, n: Field): seq<Violation> {
    if o.name == n.name then []
    else [FieldNameChanged(location, o.name, n.name)]
  }

  function TypeChangeIn(location: string, o: Field, n: Field): seq<Violation> {
    if TypeCompatible(o.fieldType, n.fieldType) then []
    else [FieldTypeChanged(location, Shown(o.fieldType), Shown(n.fieldType))]
  }

  function LabelChange(location: string, o: Field, n: Field): seq<Violation> {
    if o.cardinality == n.cardinality then []
    else
      var widened := o.cardinality.Optional? && n.cardinality.Repeated?;
      var level := if widened then Warning else Error;
      [FieldLabelChanged(level, location, LabelName(o.cardinality), LabelName(n.cardinality), !widened)]
  }

  function OneOfChange(location: string, o: Field, n: Field): seq<Violation> {
    if o.inOneOf == n.inOneOf then []
    else [FieldOneOfChanged(location, o.inOneOf, n.inOneOf)]
  }

  function FieldChanges(msgName: string, o: Field, n: Field): seq<Violation> {
    var location := At(msgName, o.name);
    NameChange(location, o, n) + TypeChangeIn(location, o, n) + LabelChange(location, o, n)
        + OneOfChange(location, o, n)
  }

  predicate ForwardOnly(mode: Mode) {
    mode.Forward? || mode.ForwardTransitive?
  }

  function RemovalLevel(mode: Mode): Level {
    if ForwardOnly(mode) then Warning else Error
  }

  function OldFieldPart(mode: Mode, o: Message, n: Message, k: int): Bag
    requires k in o.fields
  {
    if k in n.fields then multiset(FieldChanges(o.fullName, o.fields[k], n.fields[k]))
    else multiset{FieldRemoved(RemovalLevel(mode), At(o.fullName, o.fields[k].name))}
  }

  function NewFieldPart(o: Message, n: Message, k: int): Bag
    requires k in n.fields
  {
    var location := At(n.fullName, n.fields[k].name);
    if k in o.fields then multiset{}
    else if n.fields[k].cardinality.Required? then
      multiset{RequiredFieldAdded(location)}
    else multiset{FieldAdded(location)}
  }

  function OldFieldParts(mode: Mode, o: Message, n: Message): map<int, Bag> {
    map k | k in o.fields :: OldFieldPart(mode, o, n, k)
  }

  function NewFieldParts(o: Message, n: Message): map<int, Bag> {
    map k | k in n.fields :: NewFieldPart(o, n, k)
  }

  ghost function FieldReport(mode: Mode, o: Message, n: Message): Bag {
    Sum(OldFieldParts(mode, o, n)) + Sum(NewFieldParts(o, n))
  }

  // ---- messages

  /** Only nested messages that both sides have are compared. */
  ghost function NestedParts(mode: Mode, o: Message, n: Message): map<string, Bag>
    decreases o, 0
  {
    map k | k in o.nested :: if k in n.nested then MessageReport(mode, o.nested[k], n.nested[k]) else multiset{}
  }

  ghost function MessageReport(mode: Mode, o: Message, n: Message): Bag
    decreases o, 1
  {
    FieldReport(mode, o, n) + Sum(NestedParts(mode, o, n))
  }

  ghost function OldMessageParts(mode: Mode, a: SchemaGraph, b: SchemaGraph): map<string, Bag> {
    map k | k in a.messages ::
      if k in b.messages then MessageReport(mode, a.messages[k], b.messages[k])
      else multiset{MessageRemoved(k)}
  }

  function NewMessageParts(a: SchemaGraph, b: SchemaGraph): map<string, Bag> {
    map k | k in b.messages ::
      if k in a.messages then multiset{} else multiset{MessageAdded(k)}
  }

  // ---- enums

  function OldValueParts(mode: Mode, o: EnumSchema, n: EnumSchema): map<int, Bag> {
    map k | k in o.values ::
      if k in n.values then multiset{}
      else multiset{EnumValueRemoved(RemovalLevel(mode), At(o.fullName, o.values[k].name))}
  }

  function RenumberedParts(o: EnumSchema, n: EnumSchema): map<string, Bag> {
    map k | k in o.valuesByName ::
      if k in n.valuesByName && o.valuesByName[k].number != n.valuesByName[k].number
      then multiset{EnumValueRenumbered(At(o.fullName, k), Decimal(o.valuesByName[k].number),
          Decimal(n.valuesByName[k].number))}
      else multiset{}
  }

  function NewValueParts(o: EnumSchema, n: EnumSchema): map<int, Bag> {
    map k | k in n.values ::
      if k in o.values then multiset{}
      else multiset{EnumValueAdded(At(n.fullName, n.values[k].name))}
  }

  ghost function EnumReport(mode: Mode, o: EnumSchema, n: EnumSchema): Bag {
    Sum(OldValueParts(mode, o, n)) + Sum(RenumberedParts(o, n)) + Sum(NewValueParts(o, n))
  }

  ghost function OldEnumParts(mode: Mode, a: SchemaGraph, b: SchemaGraph): map<string, Bag> {
    map k | k in a.enums ::
      if k in b.enums then EnumReport(mode, a.enums[k], b.enums[k])
      else multiset{EnumRemoved(k)}
  }

  function NewEnumParts(a: SchemaGraph, b: SchemaGraph): map<string, Bag> {
    map k | k in b.enums ::
      if k in a.enums then multiset{} else multiset{EnumAdded(k)}
  }

  // ---- services

  function InputChange(location: string, o: RpcMethod, n: RpcMethod): seq<Violation> {
    if o.inputType == n.inputType then [] else [RpcInputTypeChanged(location, o.inputType, n.inputType)]
  }

  function OutputChange(location: string, o: RpcMethod, n: RpcMethod): seq<Violation> {
    if o.outputType == n.outputType then [] else [RpcOutputTypeChanged(location, o.outputType, n.outputType)]
  }

  function ClientChange(location: string, o: RpcMethod, n: RpcMethod): seq<Violation> {
    if o.clientStreaming == n.clientStreaming then []
    else [RpcClientStreamingChanged(location, Truth(o.clientStreaming), Truth(n.clientStreaming))]
  }

  function ServerChange(location: string, o: RpcMethod, n: RpcMethod): seq<Violation> {
    if o.serverStreaming == n.serverStreaming then []
    else [RpcServerStreamingChanged(location, Truth(o.serverStreaming), Truth(n.serverStreaming))]
  }

  function MethodChanges(svcName: string, o: RpcMethod, n: RpcMethod): seq<Violation> {
    var location := At(svcName, o.name);
    InputChange(location, o, n) + OutputChange(location, o, n) + ClientChange(location, o, n)
        + ServerChange(location, o, n)
  }

  function OldMethodParts(o: Service, n: Service): map<string, Bag> {
    map k | k in o.methods ::
      if k in n.methods then multiset(MethodChanges(o.fullName, o.methods[k], n.methods[k]))
      else multiset{RpcRemoved(At(o.fullName, k))}
  }

  function NewMethodParts(o: Service, n: Service): map<string, Bag> {
    map k | k in n.methods ::
      if k in o.methods then multiset{} else multiset{RpcAdded(At(n.fullName, k))}
  }

  ghost function ServiceReport(o: Service, n: Service): Bag {
    Sum(OldMethodParts(o, n)) + Sum(NewMethodParts(o, n))
  }

  ghost function OldServiceParts(a: SchemaGraph, b: SchemaGraph): map<string, Bag> {
    map k | k in a.services ::
      if k in b.services then ServiceReport(a.services[k], b.services[k])
      else multiset{ServiceRemoved(k)}
  }

  function NewServiceParts(a: SchemaGraph, b: SchemaGraph): map<string, Bag> {
    map k | k in b.services ::
      if k in a.services then multiset{} else multiset{ServiceAdded(k)}
  }

  // ---- the whole report

  function PackagePart(a: SchemaGraph, b: SchemaGraph): Bag {
    if a.packageName == b.packageName then multiset{}
    else multiset{PackageChanged(a.packageName, b.packageName)}
  }

  ghost function MessagesReport(mode: Mode, a: SchemaGraph, b: SchemaGraph): Bag {
    Sum(OldMessageParts(mode, a, b)) + Sum(NewMessageParts(a, b))
  }

  ghost function EnumsReport(mode: Mode, a: SchemaGraph, b: SchemaGraph): Bag {
    Sum(OldEnumParts(mode, a, b)) + Sum(NewEnumParts(a, b))
  }

  ghost function ServicesReport(a: SchemaGraph, b: SchemaGraph): Bag {
    Sum(OldServiceParts(a, b)) + Sum(NewServiceParts(a, b))
  }

  ghost function Report(mode: Mode, a: SchemaGraph, b: SchemaGraph): Bag {
    PackagePart(a, b) + MessagesReport(mode, a, b) + EnumsReport(mode, a, b) + ServicesReport(a, b)
  }

  // ---- when the comparison panics

  ghost predicate FieldsPanic(o: Message, n: Message) {
    exists k :: k in o.fields && k in n.fields && FieldPanics(o.fields[k], n.fields[k])
  }

  ghost predicate NestedPanics(o: Message, n: Message) {
    exists k :: k in o.nested && k in n.nested
                && (FieldsPanic(o.nested[k], n.nested[k]) || NestedPanics(o.nested[k], n.nested[k]))
  }

  ghost predicate MessagePanics(o: Message, n: Message) {
    FieldsPanic(o, n) || NestedPanics(o, n)
  }

  /** Some field compared changes between a map type and another type. */
  ghost predicate Panics(a: SchemaGraph, b: SchemaGraph) {
    exists k :: k in a.messages && k in b.messages && MessagePanics(a.messages[k], b.messages[k])
  }
}
