// Chains of versions: when two compatible steps make a compatible whole, and how they can fail to.
module CompatibilityChains {
  import opened Schemas
  import opened CompatibilityReports
  import opened Comparators
  import opened CompatibilityLaws

  /** The two pairs of fixed-width types that have a common wire-compatible type without being so themselves. */
  predicate Diagonal(x: FieldType, z: FieldType) {
    || (x.Fixed32Type? && z.Sfixed64Type?) || (x.Sfixed64Type? && z.Fixed32Type?)
    || (x.Fixed64Type? && z.Sfixed32Type?) || (x.Sfixed32Type? && z.Fixed64Type?)
  }

  datatype Family = Integers | ZigZag | FixedWidth | Text | Alone(fieldType: FieldType)

  function FamilyOf(t: FieldType): Family {
    match t
    case Int32Type => Integers
    case Int64Type => Integers
    case Uint32Type => Integers
    case Uint64Type => Integers
    case Sint32Type => ZigZag
    case Sint64Type => ZigZag
    case Fixed32Type => FixedWidth
    case Fixed64Type => FixedWidth
    case Sfixed32Type => FixedWidth
    case Sfixed64Type => FixedWidth
    case StringType => Text
    case BytesType => Text
    case _ => Alone(t)
  }

  lemma CompatibleIntegers(x: FieldType, y: FieldType)
    requires FamilyOf(x) == Integers
    ensures TypeCompatible(x, y) <==> FamilyOf(y) == Integers
  {
  }

  lemma CompatibleFixedWidths(x: FieldType, y: FieldType)
    requires FamilyOf(x) == FixedWidth
    ensures TypeCompatible(x, y) <==> FamilyOf(y) == FixedWidth && !Diagonal(x, y)
  {
  }

  lemma CompatibleOthers(x: FieldType, y: FieldType)
    requires FamilyOf(x) != Integers && FamilyOf(x) != FixedWidth
    ensures TypeCompatible(x, y) <==> FamilyOf(x) == FamilyOf(y)
  {
  }

  lemma OnlyFixedWidthsCross(x: FieldType, y: FieldType)
    ensures Diagonal(x, y) ==> FamilyOf(x) == FamilyOf(y) == FixedWidth
  {
  }

  /** What the table says: types are compatible exactly within a family, but for the diagonals. */
  lemma CompatibleWithinFamily(x: FieldType, y: FieldType)
    ensures TypeCompatible(x, y) <==> FamilyOf(x) == FamilyOf(y) && !Diagonal(x, y)
  {
    hide TypeCompatible, Diagonal, FamilyOf;
    OnlyFixedWidthsCross(x, y);
    if FamilyOf(x) == Integers {
      CompatibleIntegers(x, y);
    } else if FamilyOf(x) == FixedWidth {
      CompatibleFixedWidths(x, y);
    } else {
      CompatibleOthers(x, y);
    }
  }

  /** The table of wire-compatible types is transitive but for the diagonals. */
  lemma TypesCompose(x: FieldType, y: FieldType, z: FieldType)
    requires TypeCompatible(x, y) && TypeCompatible(y, z)
    ensures TypeCompatible(x, z) <==> !Diagonal(x, z)
  {
    hide TypeCompatible, Diagonal, FamilyOf;
    CompatibleWithinFamily(x, y);
    CompatibleWithinFamily(y, z);
    CompatibleWithinFamily(x, z);
  }

  lemma FieldsCompose(x: Field, y: Field, z: Field)
    requires FieldFits(x, y) && FieldFits(y, z)
    ensures FieldFits(x, z) <==> !Diagonal(x.fieldType, z.fieldType)
  {
    hide TypeCompatible, Diagonal;
    TypesCompose(x.fieldType, y.fieldType, z.fieldType);
  }

  // ---- what can spoil a chain of two compatible steps from a over b to c

  /** Whatever the middle version dropped must come back as it was; what it kept must not cross a diagonal. */
  ghost predicate FieldsSteady(o: Message, m: Message, n: Message) {
    forall k | k in o.fields && k in n.fields ::
      if k in m.fields then !Diagonal(o.fields[k].fieldType, n.fields[k].fieldType)
      else FieldFits(o.fields[k], n.fields[k])
  }

  ghost predicate MessageSteady(strict: bool, o: Message, m: Message, n: Message) {
    && FieldsSteady(o, m, n)
    && forall k | k in o.nested && k in n.nested ::
         if k in m.nested then MessageSteady(strict, o.nested[k], m.nested[k], n.nested[k])
         else MessageFits(strict, o.nested[k], n.nested[k])
  }

  ghost predicate EnumSteady(o: EnumSchema, m: EnumSchema, n: EnumSchema) {
    forall k | k in o.valuesByName && k in n.valuesByName && k !in m.valuesByName ::
      o.valuesByName[k].number == n.valuesByName[k].number
  }

  ghost predicate SchemaSteady(strict: bool, a: SchemaGraph, b: SchemaGraph, c: SchemaGraph) {
    && (forall k | k in a.messages && k in b.messages && k in c.messages ::
          MessageSteady(strict, a.messages[k], b.messages[k], c.messages[k]))
    && (forall k | k in a.enums && k in b.enums && k in c.enums :: EnumSteady(a.enums[k], b.enums[k], c.enums[k]))
  }

  lemma FieldListsCompose(strict: bool, o: Message, m: Message, n: Message)
    requires FieldsFit(strict, o, m) && FieldsFit(strict, m, n)
    ensures FieldsFit(strict, o, n) <==> FieldsSteady(o, m, n)
  {
    hide FieldFits, Diagonal;
    forall k | k in o.fields && k in m.fields && k in n.fields
      ensures FieldFits(o.fields[k], n.fields[k]) <==> !Diagonal(o.fields[k].fieldType, n.fields[k].fieldType)
    {
      FieldsCompose(o.fields[k], m.fields[k], n.fields[k]);
    }
    NoRequiredAdded(strict, o, m, n);
  }

  lemma NoRequiredAdded(strict: bool, o: Message, m: Message, n: Message)
    requires FieldsFit(strict, o, m) && FieldsFit(strict, m, n)
    ensures forall k | k in n.fields && k !in o.fields :: !n.fields[k].cardinality.Required?
  {
    hide TypeCompatible;
    forall k | k in n.fields && k !in o.fields ensures !n.fields[k].cardinality.Required? {
      if k in m.fields {
        assert FieldFits(m.fields[k], n.fields[k]) && !m.fields[k].cardinality.Required?;
      }
    }
  }

  lemma {:induction false} MessagesCompose(strict: bool, o: Message, m: Message, n: Message)
    requires MessageFits(strict, o, m) && MessageFits(strict, m, n)
    ensures MessageFits(strict, o, n) <==> MessageSteady(strict, o, m, n)
    decreases o
  {
    hide FieldsFit, FieldsSteady;
    FieldListsCompose(strict, o, m, n);
    forall k | k in o.nested && k in m.nested && k in n.nested
      ensures MessageFits(strict, o.nested[k], n.nested[k])
         <==> MessageSteady(strict, o.nested[k], m.nested[k], n.nested[k])
    {
      MessagesCompose(strict, o.nested[k], m.nested[k], n.nested[k]);
    }
  }

  lemma EnumsCompose(strict: bool, o: EnumSchema, m: EnumSchema, n: EnumSchema)
    requires EnumFits(strict, o, m) && EnumFits(strict, m, n)
    ensures EnumFits(strict, o, n) <==> EnumSteady(o, m, n)
  {
    forall k | k in o.valuesByName && k in m.valuesByName && k in n.valuesByName
      ensures o.valuesByName[k].number == n.valuesByName[k].number
    {
    }
  }

  lemma ServicesCompose(o: Service, m: Service, n: Service)
    requires ServiceFits(o, m) && ServiceFits(m, n)
    ensures ServiceFits(o, n)
  {
  }

  /** Two compatible steps compose exactly when the chain is steady. */
  lemma ComposeIff(strict: bool, a: SchemaGraph, b: SchemaGraph, c: SchemaGraph)
    requires SchemaFits(strict, a, b) && SchemaFits(strict, b, c)
    ensures SchemaFits(strict, a, c) <==> SchemaSteady(strict, a, b, c)
  {
    hide MessageFits, MessageSteady, EnumFits, EnumSteady, ServiceFits;
    forall k | k in a.messages
      ensures MessageFits(strict, a.messages[k], c.messages[k])
         <==> MessageSteady(strict, a.messages[k], b.messages[k], c.messages[k])
    {
      MessagesCompose(strict, a.messages[k], b.messages[k], c.messages[k]);
    }
    forall k | k in a.enums
      ensures EnumFits(strict, a.enums[k], c.enums[k]) <==> EnumSteady(a.enums[k], b.enums[k], c.enums[k])
    {
      EnumsCompose(strict, a.enums[k], b.enums[k], c.enums[k]);
    }
    forall k | k in a.services ensures ServiceFits(a.services[k], c.services[k]) {
      ServicesCompose(a.services[k], b.services[k], c.services[k]);
    }
  }

  // ---- the same for verdicts, when the middle version drops nothing

  ghost predicate NestedKept(o: Message, m: Message) {
    forall k | k in o.nested :: k in m.nested && NestedKept(o.nested[k], m.nested[k])
  }

  /** b has every nested message and every enum value name of a. */
  ghost predicate Kept(a: SchemaGraph, b: SchemaGraph) {
    && (forall k | k in a.messages && k in b.messages :: NestedKept(a.messages[k], b.messages[k]))
    && (forall k | k in a.enums && k in b.enums :: a.enums[k].valuesByName.Keys <= b.enums[k].valuesByName.Keys)
  }

  ghost predicate FieldsCross(o: Message, n: Message) {
    exists k :: k in o.fields && k in n.fields && Diagonal(o.fields[k].fieldType, n.fields[k].fieldType)
  }

  ghost predicate MessageCrosses(o: Message, n: Message) {
    FieldsCross(o, n) || exists k :: k in o.nested && k in n.nested && MessageCrosses(o.nested[k], n.nested[k])
  }

  /** Some field, at some nesting depth, goes from one end of a diagonal to the other. */
  ghost predicate Crosses(a: SchemaGraph, c: SchemaGraph) {
    exists k :: k in a.messages && k in c.messages && MessageCrosses(a.messages[k], c.messages[k])
  }

  lemma {:induction false} SteadyUnlessCrossing(o: Message, m: Message, n: Message)
    requires MessageFits(true, o, m) && NestedKept(o, m)
    ensures MessageSteady(true, o, m, n) <==> !MessageCrosses(o, n)
    decreases o
  {
    hide Diagonal, FieldFits;
    assert FieldsSteady(o, m, n) <==> !FieldsCross(o, n) by {
      assert forall k | k in o.fields :: k in m.fields;
    }
    hide FieldsSteady, FieldsCross, FieldsFit;
    forall k | k in o.nested && k in n.nested
      ensures MessageSteady(true, o.nested[k], m.nested[k], n.nested[k]) <==> !MessageCrosses(o.nested[k], n.nested[k])
    {
      SteadyUnlessCrossing(o.nested[k], m.nested[k], n.nested[k]);
    }
  }

  /** Two compatible steps are compatible as a whole exactly when the chain is steady, in every mode
      that checks anything; the check of a steady whole does not panic. */
  lemma ChecksComposeIff(mode: Mode, a: SchemaGraph, b: SchemaGraph, c: SchemaGraph,
                         ab: CheckResult, bc: CheckResult)
    requires mode != ModeNone && IsResult(mode, a, b, ab) && IsResult(mode, b, c, bc)
    requires ab.compatible && bc.compatible
    ensures SchemaSteady(!ForwardOnly(mode), a, b, c) ==> !Panics(a, c)
    ensures forall ac | IsResult(mode, a, c, ac) :: ac.compatible <==> SchemaSteady(!ForwardOnly(mode), a, b, c)
  {
    hide IsResult, SchemaFits, SchemaSteady, Panics;
    CompatibleIff(mode, a, b, ab);
    CompatibleIff(mode, b, c, bc);
    ComposeIff(!ForwardOnly(mode), a, b, c);
    if SchemaSteady(!ForwardOnly(mode), a, b, c) {
      FittingSchemasDoNotPanic(!ForwardOnly(mode), a, c);
    }
    forall ac | IsResult(mode, a, c, ac) ensures ac.compatible <==> SchemaSteady(!ForwardOnly(mode), a, b, c) {
      CompatibleIff(mode, a, c, ac);
    }
  }

  lemma KeptChainIsSteady(a: SchemaGraph, b: SchemaGraph, c: SchemaGraph)
    requires SchemaFits(true, a, b) && SchemaFits(true, b, c) && Kept(a, b)
    ensures SchemaSteady(true, a, b, c) <==> !Crosses(a, c)
  {
    hide MessageFits, MessageSteady, MessageCrosses, EnumFits, NestedKept, ServiceFits;
    forall k | k in a.messages
      ensures MessageSteady(true, a.messages[k], b.messages[k], c.messages[k])
         <==> !MessageCrosses(a.messages[k], c.messages[k])
    {
      SteadyUnlessCrossing(a.messages[k], b.messages[k], c.messages[k]);
    }
    forall k | k in a.enums && k in b.enums && k in c.enums ensures EnumSteady(a.enums[k], b.enums[k], c.enums[k]) {
    }
  }

  /** Adjacent backward-compatible versions make a backward-compatible whole, unless a field crosses a
      diagonal, as long as the middle version keeps nested messages and enum value names. */
  lemma AdjacentChecksCompose(mode: Mode, a: SchemaGraph, b: SchemaGraph, c: SchemaGraph,
                              ab: CheckResult, bc: CheckResult, ac: CheckResult)
    requires mode != ModeNone && !ForwardOnly(mode)
    requires IsResult(mode, a, b, ab) && IsResult(mode, b, c, bc) && IsResult(mode, a, c, ac)
    requires ab.compatible && bc.compatible && Kept(a, b)
    ensures !Panics(a, c) && (ac.compatible <==> !Crosses(a, c))
  {
    hide IsResult, SchemaFits, SchemaSteady, Crosses, Kept, Panics;
    CompatibleIff(mode, a, b, ab);
    CompatibleIff(mode, b, c, bc);
    CompatibleIff(mode, a, c, ac);
    ComposeIff(true, a, b, c);
    KeptChainIsSteady(a, b, c);
    KeptChainDoesNotPanic(a, b, c);
  }

  /** A map type is compatible with itself only, so that it is kept along a chain. */
  lemma ChainedFieldsDoNotPanic(x: Field, y: Field, z: Field)
    requires FieldFits(x, y) && FieldFits(y, z)
    ensures !FieldPanics(x, z)
  {
    hide TypeCompatible;
    MapsStayMaps(x.fieldType, y.fieldType);
    MapsStayMaps(y.fieldType, z.fieldType);
    MapsStayMaps(x.fieldType, z.fieldType);
  }

  lemma MapsStayMaps(x: FieldType, y: FieldType)
    ensures x.MapType? || y.MapType? ==> (TypeCompatible(x, y) <==> x == y)
  {
  }

  lemma {:induction false} KeptMessagesDoNotPanic(o: Message, m: Message, n: Message)
    requires MessageFits(true, o, m) && MessageFits(true, m, n) && NestedKept(o, m)
    ensures !MessagePanics(o, n)
    decreases o
  {
    hide FieldFits, FieldPanics;
    forall k | k in o.fields && k in n.fields ensures !FieldPanics(o.fields[k], n.fields[k]) {
      assert k in m.fields && FieldFits(o.fields[k], m.fields[k]) && FieldFits(m.fields[k], n.fields[k]);
      ChainedFieldsDoNotPanic(o.fields[k], m.fields[k], n.fields[k]);
    }
    assert !FieldsPanic(o, n);
    hide FieldsFit, FieldsPanic;
    if NestedPanics(o, n) {
      var k :| k in o.nested && k in n.nested && MessagePanics(o.nested[k], n.nested[k]);
      KeptMessagesDoNotPanic(o.nested[k], m.nested[k], n.nested[k]);
    }
  }

  lemma KeptChainDoesNotPanic(a: SchemaGraph, b: SchemaGraph, c: SchemaGraph)
    requires SchemaFits(true, a, b) && SchemaFits(true, b, c) && Kept(a, b)
    ensures !Panics(a, c)
  {
    hide MessageFits, MessagePanics, EnumFits, ServiceFits, NestedKept;
    if Panics(a, c) {
      var k :| k in a.messages && k in c.messages && MessagePanics(a.messages[k], c.messages[k]);
      KeptMessagesDoNotPanic(a.messages[k], b.messages[k], c.messages[k]);
    }
  }

  // ---- a compatible pair never panics

  lemma {:induction false} FittingMessagesDoNotPanic(strict: bool, o: Message, n: Message)
    requires MessageFits(strict, o, n)
    ensures !MessagePanics(o, n)
    decreases o
  {
    hide TypeCompatible;
    if NestedPanics(o, n) {
      var k :| k in o.nested && k in n.nested && MessagePanics(o.nested[k], n.nested[k]);
      FittingMessagesDoNotPanic(strict, o.nested[k], n.nested[k]);
    }
  }

  /** Only an incompatible pair of schemas can make the comparison panic. */
  lemma FittingSchemasDoNotPanic(strict: bool, a: SchemaGraph, b: SchemaGraph)
    requires SchemaFits(strict, a, b)
    ensures !Panics(a, b)
  {
    hide MessageFits, MessagePanics, EnumFits, ServiceFits;
    if Panics(a, b) {
      var k :| k in a.messages && k in b.messages && MessagePanics(a.messages[k], b.messages[k]);
      FittingMessagesDoNotPanic(strict, a.messages[k], b.messages[k]);
    }
  }

  // ---- three chains whose steps pass every check and whose ends do not

  function OneField(t: FieldType): Message {
    Message("M", map[1 := Field("f", 1, t, Optional, "")], map[])
  }

  function OneMessage(m: Message): SchemaGraph {
    SchemaGraph("p", map["M" := m], map[], map[])
  }

  lemma OneMessageFits(strict: bool, o: Message, n: Message)
    ensures SchemaFits(strict, OneMessage(o), OneMessage(n)) <==> MessageFits(strict, o, n)
  {
    hide MessageFits;
    var a, b := OneMessage(o), OneMessage(n);
    assert "M" in a.messages && a.messages["M"] == o && b.messages["M"] == n;
  }

  lemma OneFieldFits(strict: bool, x: FieldType, y: FieldType)
    ensures MessageFits(strict, OneField(x), OneField(y)) <==> TypeCompatible(x, y)
  {
    hide TypeCompatible, FieldsFit;
    OneFieldsFit(strict, x, y);
  }

  lemma OneFieldsFit(strict: bool, x: FieldType, y: FieldType)
    ensures FieldsFit(strict, OneField(x), OneField(y)) <==> TypeCompatible(x, y)
  {
    hide TypeCompatible;
    var o, n := OneField(x), OneField(y);
    assert forall k :: k in o.fields <==> k == 1;
    assert forall k :: k in n.fields <==> k == 1;
    assert FieldFits(o.fields[1], n.fields[1]) <==> TypeCompatible(x, y);
  }

  /** fixed32, fixed64, sfixed64: each step is compatible, the two together are not. */
  lemma FixedTypesDoNotCompose(strict: bool)
    ensures SchemaFits(strict, OneMessage(OneField(Fixed32Type)), OneMessage(OneField(Fixed64Type)))
    ensures SchemaFits(strict, OneMessage(OneField(Fixed64Type)), OneMessage(OneField(Sfixed64Type)))
    ensures !SchemaFits(strict, OneMessage(OneField(Fixed32Type)), OneMessage(OneField(Sfixed64Type)))
  {
    hide SchemaFits, MessageFits, OneMessage, OneField;
    OneMessageFits(strict, OneField(Fixed32Type), OneField(Fixed64Type));
    OneMessageFits(strict, OneField(Fixed64Type), OneField(Sfixed64Type));
    OneMessageFits(strict, OneField(Fixed32Type), OneField(Sfixed64Type));
    OneFieldFits(strict, Fixed32Type, Fixed64Type);
    OneFieldFits(strict, Fixed64Type, Sfixed64Type);
    OneFieldFits(strict, Fixed32Type, Sfixed64Type);
  }

  function Around(nested: map<string, Message>): Message {
    Message("M", map[], nested)
  }

  lemma ChangedNestedDoesNotFit(strict: bool)
    ensures MessageFits(strict, Around(map["N" := OneField(BoolType)]), Around(map[]))
    ensures MessageFits(strict, Around(map[]), Around(map["N" := OneField(StringType)]))
    ensures !MessageFits(strict, Around(map["N" := OneField(BoolType)]), Around(map["N" := OneField(StringType)]))
  {
    hide OneField;
    var o, n := Around(map["N" := OneField(BoolType)]), Around(map["N" := OneField(StringType)]);
    OneFieldFits(strict, BoolType, StringType);
    assert "N" in o.nested && o.nested["N"] == OneField(BoolType) && n.nested["N"] == OneField(StringType);
  }

  /** A nested message that is dropped and comes back changed passes both steps but not the whole. */
  lemma DroppedNestedMessagesDoNotCompose(strict: bool)
    ensures SchemaFits(strict, OneMessage(Around(map["N" := OneField(BoolType)])), OneMessage(Around(map[])))
    ensures SchemaFits(strict, OneMessage(Around(map[])), OneMessage(Around(map["N" := OneField(StringType)])))
    ensures !SchemaFits(strict, OneMessage(Around(map["N" := OneField(BoolType)])),
                        OneMessage(Around(map["N" := OneField(StringType)])))
  {
    ChangedNestedDoesNotFit(strict);
    hide SchemaFits, MessageFits, OneMessage, OneField, Around;
    OneMessageFits(strict, Around(map["N" := OneField(BoolType)]), Around(map[]));
    OneMessageFits(strict, Around(map[]), Around(map["N" := OneField(StringType)]));
    OneMessageFits(strict, Around(map["N" := OneField(BoolType)]), Around(map["N" := OneField(StringType)]));
  }

  function Valued(values: map<int, string>, names: map<string, int>): EnumSchema {
    EnumSchema("E", map k | k in values :: EnumValue(values[k], k), map k | k in names :: EnumValue(k, names[k]))
  }

  function OneEnum(e: EnumSchema): SchemaGraph {
    SchemaGraph("p", map[], map["E" := e], map[])
  }

  lemma OneEnumFits(strict: bool, o: EnumSchema, n: EnumSchema)
    ensures SchemaFits(strict, OneEnum(o), OneEnum(n)) <==> EnumFits(strict, o, n)
  {
    hide EnumFits;
    var a, b := OneEnum(o), OneEnum(n);
    assert "E" in a.enums && a.enums["E"] == o && b.enums["E"] == n;
  }

  const FIRST := Valued(map[1 := "A"], map["A" := 1])

  const RENAMED := Valued(map[1 := "B"], map["B" := 1])

  const REUSED := Valued(map[1 := "B", 2 := "A"], map["B" := 1, "A" := 2])

  lemma ReusedNameDoesNotFit(strict: bool)
    ensures EnumFits(strict, FIRST, RENAMED) && EnumFits(strict, RENAMED, REUSED) && !EnumFits(strict, FIRST, REUSED)
  {
    assert "A" in FIRST.valuesByName && "A" in REUSED.valuesByName;
    assert "A"[0] != "B"[0];
  }

  /** An enum value that is renamed, and whose old name is then given to another number. */
  lemma ReusedValueNamesDoNotCompose(strict: bool)
    ensures SchemaFits(strict, OneEnum(FIRST), OneEnum(RENAMED))
            && SchemaFits(strict, OneEnum(RENAMED), OneEnum(REUSED))
    ensures !SchemaFits(strict, OneEnum(FIRST), OneEnum(REUSED))
  {
    ReusedNameDoesNotFit(strict);
    hide SchemaFits, EnumFits, OneEnum, Valued;
    OneEnumFits(strict, FIRST, RENAMED);
    OneEnumFits(strict, RENAMED, REUSED);
    OneEnumFits(strict, FIRST, REUSED);
  }

  /** A field of the map type where there was another makes the comparison panic.  Such a graph is built by
      hand: the parser gives a map field the name of its entry message, hence the message type. */
  lemma MapFieldPanics()
    ensures Panics(OneMessage(OneField(BoolType)), OneMessage(OneField(MapType)))
  {
    var o, n := OneField(BoolType), OneField(MapType);
    assert 1 in o.fields && 1 in n.fields && FieldPanics(o.fields[1], n.fields[1]);
    assert FieldsPanic(o, n);
    var a, b := OneMessage(o), OneMessage(n);
    assert "M" in a.messages && "M" in b.messages && MessagePanics(a.messages["M"], b.messages["M"]);
  }
}
