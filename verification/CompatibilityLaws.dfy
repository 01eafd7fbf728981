// Laws that relate several compatibility checks: what a verdict means, checking a schema against
// itself, the forward against the backward report, and chains of compatible versions.
module CompatibilityLaws {
  import opened Schemas
  import opened CompatibilityReports
  import opened Comparators

  // ---- what it means to be compatible, without reference to reports

  predicate LabelFits(o: FieldLabel, n: FieldLabel) {
    o == n || (o.Optional? && n.Repeated?)
  }

  predicate FieldFits(o: Field, n: Field) {
    TypeCompatible(o.fieldType, n.fieldType) && LabelFits(o.cardinality, n.cardinality) && o.inOneOf == n.inOneOf
  }

  /** strict forbids the removal of fields and enum values. */
  ghost predicate FieldsFit(strict: bool, o: Message, n: Message) {
    && (forall k | k in o.fields :: if k in n.fields then FieldFits(o.fields[k], n.fields[k]) else !strict)
    && (forall k | k in n.fields && k !in o.fields :: !n.fields[k].cardinality.Required?)
  }

  ghost predicate MessageFits(strict: bool, o: Message, n: Message) {
    && FieldsFit(strict, o, n)
    && forall k | k in o.nested && k in n.nested :: MessageFits(strict, o.nested[k], n.nested[k])
  }

  ghost predicate EnumFits(strict: bool, o: EnumSchema, n: EnumSchema) {
    && (strict ==> forall k | k in o.values :: k in n.values)
    && (forall k | k in o.valuesByName && k in n.valuesByName :: o.valuesByName[k].number == n.valuesByName[k].number)
  }

  predicate MethodFits(o: RpcMethod, n: RpcMethod) {
    && o.inputType == n.inputType && o.outputType == n.outputType
    && o.clientStreaming == n.clientStreaming && o.serverStreaming == n.serverStreaming
  }

  ghost predicate ServiceFits(o: Service, n: Service) {
    forall k | k in o.methods :: k in n.methods && MethodFits(o.methods[k], n.methods[k])
  }

  ghost predicate SchemaFits(strict: bool, a: SchemaGraph, b: SchemaGraph) {
    && a.packageName == b.packageName
    && (forall k | k in a.messages :: k in b.messages && MessageFits(strict, a.messages[k], b.messages[k]))
    && (forall k | k in a.enums :: k in b.enums && EnumFits(strict, a.enums[k], b.enums[k]))
    && (forall k | k in a.services :: k in b.services && ServiceFits(a.services[k], b.services[k]))
  }

  // ---- a report is free of errors exactly for compatible schemas

  ghost predicate ErrorFree(bag: Bag) {
    forall v | v in bag :: v.level != Error
  }

  lemma ErrorFreeUnion(a: Bag, b: Bag)
    ensures ErrorFree(a + b) <==> ErrorFree(a) && ErrorFree(b)
  {
    assert forall v :: v in a + b <==> v in a || v in b;
  }

  lemma BadPart<K>(parts: map<K, Bag>) returns (k: K)
    requires !ErrorFree(Sum(parts))
    ensures k in parts && !ErrorFree(parts[k])
  {
    var v :| v in Sum(parts) && v.level == Error;
    k := SumSource(parts, v);
  }

  lemma GoodPart<K>(parts: map<K, Bag>, k: K)
    requires ErrorFree(Sum(parts)) && k in parts
    ensures ErrorFree(parts[k])
  {
    forall v | v in parts[k] ensures v.level != Error {
      SumContains(parts, k, v);
    }
  }

  lemma ErrorFreeSum<K(!new)>(parts: map<K, Bag>)
    ensures ErrorFree(Sum(parts)) <==> forall k | k in parts :: ErrorFree(parts[k])
  {
    if ErrorFree(Sum(parts)) {
      forall k | k in parts ensures ErrorFree(parts[k]) {
        GoodPart(parts, k);
      }
    } else {
      var k := BadPart(parts);
    }
  }

  lemma ErrorFreeOne(v: Violation)
    ensures ErrorFree(multiset{v}) <==> v.level != Error
    ensures ErrorFree(multiset{})
  {
    assert v in multiset{v};
  }

  lemma ErrorFreeSeq(s: seq<Violation>, t: seq<Violation>)
    ensures ErrorFree(multiset(s + t)) <==> ErrorFree(multiset(s)) && ErrorFree(multiset(t))
    ensures |s| == 1 ==> (ErrorFree(multiset(s)) <==> s[0].level != Error)
    ensures s == [] ==> ErrorFree(multiset(s))
  {
    assert multiset(s + t) == multiset(s) + multiset(t);
    ErrorFreeUnion(multiset(s), multiset(t));
    if |s| == 1 {
      assert s == [s[0]];
      ErrorFreeOne(s[0]);
    }
  }

  lemma FieldChangesErrorFree(msgName: string, o: Field, n: Field)
    ensures ErrorFree(multiset(FieldChanges(msgName, o, n))) <==> FieldFits(o, n)
  {
    hide TypeCompatible, ErrorFree, At;
    var loc := At(msgName, o.name);
    var p, q, r, s := NameChange(loc, o, n), TypeChangeIn(loc, o, n), LabelChange(loc, o, n), OneOfChange(loc, o, n);
    ErrorFreeSeq(p + q + r, s);
    ErrorFreeSeq(p + q, r);
    ErrorFreeSeq(p, q);
    ErrorFreeSeq(q, []);
    ErrorFreeSeq(r, []);
    ErrorFreeSeq(s, []);
  }

  lemma OldFieldsErrorFree(mode: Mode, o: Message, n: Message)
    ensures ErrorFree(Sum(OldFieldParts(mode, o, n)))
       <==> forall k | k in o.fields :: if k in n.fields then FieldFits(o.fields[k], n.fields[k]) else ForwardOnly(mode)
  {
    var parts := OldFieldParts(mode, o, n);
    OldFieldKeys(mode, o, n);
    hide ErrorFree, Sum, FieldChanges, FieldFits, At, OldFieldParts;
    forall k | k in o.fields
      ensures ErrorFree(parts[k]) <==> if k in n.fields then FieldFits(o.fields[k], n.fields[k]) else ForwardOnly(mode)
    {
      if k in n.fields {
        FieldChangesErrorFree(o.fullName, o.fields[k], n.fields[k]);
      } else {
        ErrorFreeOne(FieldRemoved(RemovalLevel(mode), At(o.fullName, o.fields[k].name)));
      }
    }
    if ErrorFree(Sum(parts)) {
      forall k | k in o.fields ensures ErrorFree(parts[k]) {
        GoodPart(parts, k);
      }
    } else {
      var k := BadPart(parts);
    }
  }

  lemma NewFieldsErrorFree(o: Message, n: Message)
    ensures ErrorFree(Sum(NewFieldParts(o, n)))
       <==> forall k | k in n.fields && k !in o.fields :: !n.fields[k].cardinality.Required?
  {
    var parts := NewFieldParts(o, n);
    hide ErrorFree, Sum, At;
    ErrorFreeSum(parts);
    forall k | k in n.fields ensures ErrorFree(parts[k]) <==> (k in o.fields || !n.fields[k].cardinality.Required?) {
      var loc := At(n.fullName, n.fields[k].name);
      ErrorFreeOne(RequiredFieldAdded(loc));
      ErrorFreeOne(FieldAdded(loc));
    }
  }

  lemma FieldReportErrorFree(mode: Mode, o: Message, n: Message)
    ensures ErrorFree(FieldReport(mode, o, n)) <==> FieldsFit(!ForwardOnly(mode), o, n)
  {
    ErrorFreeUnion(Sum(OldFieldParts(mode, o, n)), Sum(NewFieldParts(o, n)));
    OldFieldsErrorFree(mode, o, n);
    NewFieldsErrorFree(o, n);
    hide ErrorFree, Sum;
  }

  lemma {:induction false} MessageReportErrorFree(mode: Mode, o: Message, n: Message)
    ensures ErrorFree(MessageReport(mode, o, n)) <==> MessageFits(!ForwardOnly(mode), o, n)
    decreases o
  {
    hide ErrorFree, Sum, FieldReport, FieldsFit;
    var parts := NestedParts(mode, o, n);
    FieldReportErrorFree(mode, o, n);
    ErrorFreeUnion(FieldReport(mode, o, n), Sum(parts));
    ErrorFreeSum(parts);
    ErrorFreeOne(FieldAdded(""));
    forall k | k in o.nested
      ensures ErrorFree(parts[k]) <==> (k in n.nested ==> MessageFits(!ForwardOnly(mode), o.nested[k], n.nested[k]))
    {
      if k in n.nested {
        MessageReportErrorFree(mode, o.nested[k], n.nested[k]);
      }
    }
  }

  lemma EnumReportErrorFree(mode: Mode, o: EnumSchema, n: EnumSchema)
    ensures ErrorFree(EnumReport(mode, o, n)) <==> EnumFits(!ForwardOnly(mode), o, n)
  {
    ErrorFreeUnion(Sum(OldValueParts(mode, o, n)) + Sum(RenumberedParts(o, n)), Sum(NewValueParts(o, n)));
    ErrorFreeUnion(Sum(OldValueParts(mode, o, n)), Sum(RenumberedParts(o, n)));
    OldValuesErrorFree(mode, o, n);
    NumbersErrorFree(o, n);
    NewValuesErrorFree(o, n);
    hide ErrorFree, Sum;
  }

  lemma OldValuesErrorFree(mode: Mode, o: EnumSchema, n: EnumSchema)
    ensures ErrorFree(Sum(OldValueParts(mode, o, n)))
       <==> ForwardOnly(mode) || forall k | k in o.values :: k in n.values
  {
    var parts := OldValueParts(mode, o, n);
    OldValueKeys(mode, o, n);
    hide ErrorFree, Sum, At, OldValueParts;
    forall k | k in o.values ensures ErrorFree(parts[k]) <==> ForwardOnly(mode) || k in n.values {
      ErrorFreeOne(EnumValueRemoved(RemovalLevel(mode), At(o.fullName, o.values[k].name)));
    }
    if ErrorFree(Sum(parts)) {
      forall k | k in o.values ensures ErrorFree(parts[k]) {
        GoodPart(parts, k);
      }
    } else {
      var k := BadPart(parts);
    }
  }

  lemma NumbersErrorFree(o: EnumSchema, n: EnumSchema)
    ensures ErrorFree(Sum(RenumberedParts(o, n)))
       <==> forall k | k in o.valuesByName && k in n.valuesByName ::
           o.valuesByName[k].number == n.valuesByName[k].number
  {
    var parts := RenumberedParts(o, n);
    hide ErrorFree, Sum, At, Decimal;
    ErrorFreeSum(parts);
    forall k | k in o.valuesByName
      ensures ErrorFree(parts[k]) <==> (k in n.valuesByName ==> o.valuesByName[k].number == n.valuesByName[k].number)
    {
      var changed := if k in n.valuesByName then Decimal(n.valuesByName[k].number) else "";
      ErrorFreeOne(EnumValueRenumbered(At(o.fullName, k), Decimal(o.valuesByName[k].number), changed));
    }
  }

  lemma NewValuesErrorFree(o: EnumSchema, n: EnumSchema)
    ensures ErrorFree(Sum(NewValueParts(o, n)))
  {
    var parts := NewValueParts(o, n);
    hide ErrorFree, Sum, At;
    ErrorFreeSum(parts);
    forall k | k in n.values ensures ErrorFree(parts[k]) {
      ErrorFreeOne(EnumValueAdded(At(n.fullName, n.values[k].name)));
    }
  }

  lemma MethodChangesErrorFree(svcName: string, o: RpcMethod, n: RpcMethod)
    ensures ErrorFree(multiset(MethodChanges(svcName, o, n))) <==> MethodFits(o, n)
  {
    hide ErrorFree, At, Truth;
    var loc := At(svcName, o.name);
    var p, q, r, s := InputChange(loc, o, n), OutputChange(loc, o, n), ClientChange(loc, o, n), ServerChange(loc, o, n);
    ErrorFreeSeq(p + q + r, s);
    ErrorFreeSeq(p + q, r);
    ErrorFreeSeq(p, q);
    ErrorFreeSeq(q, []);
    ErrorFreeSeq(r, []);
    ErrorFreeSeq(s, []);
  }

  lemma ServiceReportErrorFree(o: Service, n: Service)
    ensures ErrorFree(ServiceReport(o, n)) <==> ServiceFits(o, n)
  {
    var before, after := OldMethodParts(o, n), NewMethodParts(o, n);
    hide ErrorFree, Sum, At, MethodChanges, MethodFits;
    ErrorFreeUnion(Sum(before), Sum(after));
    ErrorFreeSum(before);
    ErrorFreeSum(after);
    forall k | k in o.methods
      ensures ErrorFree(before[k]) <==> k in n.methods && MethodFits(o.methods[k], n.methods[k])
    {
      if k in n.methods {
        MethodChangesErrorFree(o.fullName, o.methods[k], n.methods[k]);
      } else {
        ErrorFreeOne(RpcRemoved(At(o.fullName, k)));
      }
    }
    forall k | k in n.methods ensures ErrorFree(after[k]) {
      ErrorFreeOne(RpcAdded(At(n.fullName, k)));
    }
  }

  lemma MessagesErrorFree(mode: Mode, a: SchemaGraph, b: SchemaGraph)
    ensures ErrorFree(MessagesReport(mode, a, b))
       <==> forall k | k in a.messages ::
           k in b.messages && MessageFits(!ForwardOnly(mode), a.messages[k], b.messages[k])
  {
    var before, after := OldMessageParts(mode, a, b), NewMessageParts(a, b);
    hide ErrorFree, Sum, MessageReport, MessageFits;
    ErrorFreeUnion(Sum(before), Sum(after));
    ErrorFreeSum(before);
    ErrorFreeSum(after);
    forall k | k in a.messages
      ensures ErrorFree(before[k]) <==> k in b.messages && MessageFits(!ForwardOnly(mode), a.messages[k], b.messages[k])
    {
      ErrorFreeOne(MessageRemoved(k));
      if k in b.messages {
        MessageReportErrorFree(mode, a.messages[k], b.messages[k]);
      }
    }
    forall k | k in b.messages ensures ErrorFree(after[k]) {
      ErrorFreeOne(MessageAdded(k));
    }
  }

  lemma EnumsErrorFree(mode: Mode, a: SchemaGraph, b: SchemaGraph)
    ensures ErrorFree(EnumsReport(mode, a, b))
       <==> forall k | k in a.enums :: k in b.enums && EnumFits(!ForwardOnly(mode), a.enums[k], b.enums[k])
  {
    var before, after := OldEnumParts(mode, a, b), NewEnumParts(a, b);
    hide ErrorFree, Sum, EnumReport, EnumFits;
    ErrorFreeUnion(Sum(before), Sum(after));
    ErrorFreeSum(before);
    ErrorFreeSum(after);
    forall k | k in a.enums
      ensures ErrorFree(before[k]) <==> k in b.enums && EnumFits(!ForwardOnly(mode), a.enums[k], b.enums[k])
    {
      ErrorFreeOne(EnumRemoved(k));
      if k in b.enums {
        EnumReportErrorFree(mode, a.enums[k], b.enums[k]);
      }
    }
    forall k | k in b.enums ensures ErrorFree(after[k]) {
      ErrorFreeOne(EnumAdded(k));
    }
  }

  lemma ServicesErrorFree(a: SchemaGraph, b: SchemaGraph)
    ensures ErrorFree(ServicesReport(a, b))
       <==> forall k | k in a.services :: k in b.services && ServiceFits(a.services[k], b.services[k])
  {
    var before, after := OldServiceParts(a, b), NewServiceParts(a, b);
    hide ErrorFree, Sum, ServiceReport, ServiceFits;
    ErrorFreeUnion(Sum(before), Sum(after));
    ErrorFreeSum(before);
    ErrorFreeSum(after);
    forall k | k in a.services
      ensures ErrorFree(before[k]) <==> k in b.services && ServiceFits(a.services[k], b.services[k])
    {
      ErrorFreeOne(ServiceRemoved(k));
      if k in b.services {
        ServiceReportErrorFree(a.services[k], b.services[k]);
      }
    }
    forall k | k in b.services ensures ErrorFree(after[k]) {
      ErrorFreeOne(ServiceAdded(k));
    }
  }

  /** The verdict of a check: compatible means that the new schema fits the old one, part by part. */
  lemma CompatibleIff(mode: Mode, a: SchemaGraph, b: SchemaGraph, r: CheckResult)
    requires IsResult(mode, a, b, r) && mode != ModeNone
    ensures r.compatible <==> SchemaFits(!ForwardOnly(mode), a, b)
  {
    hide Sum, MessagesReport, EnumsReport, ServicesReport, MessageFits, EnumFits, ServiceFits;
    var p, m, e, s := PackagePart(a, b), MessagesReport(mode, a, b), EnumsReport(mode, a, b), ServicesReport(a, b);
    assert r.compatible <==> ErrorFree(Report(mode, a, b)) by {
      assert forall v :: v in r.violations <==> v in multiset(r.violations);
    }
    hide ErrorFree;
    ErrorFreeUnion(p + m + e, s);
    ErrorFreeUnion(p + m, e);
    ErrorFreeUnion(p, m);
    ErrorFreeOne(PackageChanged(a.packageName, b.packageName));
    MessagesErrorFree(mode, a, b);
    EnumsErrorFree(mode, a, b);
    ServicesErrorFree(a, b);
  }

  // ---- a schema against itself

  lemma EmptySum<K>(parts: map<K, Bag>) returns (k: K)
    requires Sum(parts) != multiset{}
    ensures k in parts && parts[k] != multiset{}
  {
    var v :| v in Sum(parts);
    k := SumSource(parts, v);
  }

  lemma FieldReportOfSelf(mode: Mode, m: Message)
    ensures FieldReport(mode, m, m) == multiset{} && !FieldsPanic(m, m)
  {
    hide Sum;
    if Sum(OldFieldParts(mode, m, m)) != multiset{} {
      var k := EmptySum(OldFieldParts(mode, m, m));
    }
    if Sum(NewFieldParts(m, m)) != multiset{} {
      var k := EmptySum(NewFieldParts(m, m));
    }
  }

  lemma {:induction false} MessageReportOfSelf(mode: Mode, m: Message)
    ensures MessageReport(mode, m, m) == multiset{} && !MessagePanics(m, m)
    decreases m
  {
    hide Sum, FieldReport, FieldsPanic;
    FieldReportOfSelf(mode, m);
    if Sum(NestedParts(mode, m, m)) != multiset{} {
      var k := EmptySum(NestedParts(mode, m, m));
      MessageReportOfSelf(mode, m.nested[k]);
    }
    if NestedPanics(m, m) {
      var k :| k in m.nested && MessagePanics(m.nested[k], m.nested[k]);
      MessageReportOfSelf(mode, m.nested[k]);
    }
  }

  lemma EnumReportOfSelf(mode: Mode, e: EnumSchema)
    ensures EnumReport(mode, e, e) == multiset{}
  {
    hide Sum;
    if Sum(OldValueParts(mode, e, e)) != multiset{} {
      var k := EmptySum(OldValueParts(mode, e, e));
    }
    if Sum(RenumberedParts(e, e)) != multiset{} {
      var k := EmptySum(RenumberedParts(e, e));
    }
    if Sum(NewValueParts(e, e)) != multiset{} {
      var k := EmptySum(NewValueParts(e, e));
    }
  }

  lemma ServiceReportOfSelf(s: Service)
    ensures ServiceReport(s, s) == multiset{}
  {
    hide Sum;
    if Sum(OldMethodParts(s, s)) != multiset{} {
      var k := EmptySum(OldMethodParts(s, s));
    }
    if Sum(NewMethodParts(s, s)) != multiset{} {
      var k := EmptySum(NewMethodParts(s, s));
    }
  }

  /** A schema compared with itself yields no violations, at any nesting depth, and never panics. */
  lemma NothingAgainstItself(mode: Mode, a: SchemaGraph)
    ensures Report(mode, a, a) == multiset{} && !Panics(a, a)
  {
    hide Sum, MessageReport, EnumReport, ServiceReport, MessagePanics;
    if Sum(OldMessageParts(mode, a, a)) != multiset{} {
      var k := EmptySum(OldMessageParts(mode, a, a));
      MessageReportOfSelf(mode, a.messages[k]);
    }
    if Sum(OldEnumParts(mode, a, a)) != multiset{} {
      var k := EmptySum(OldEnumParts(mode, a, a));
      EnumReportOfSelf(mode, a.enums[k]);
    }
    if Sum(OldServiceParts(a, a)) != multiset{} {
      var k := EmptySum(OldServiceParts(a, a));
      ServiceReportOfSelf(a.services[k]);
    }
    NothingAddedToItself(a);
    if Panics(a, a) {
      var k :| k in a.messages && MessagePanics(a.messages[k], a.messages[k]);
      MessageReportOfSelf(mode, a.messages[k]);
    }
  }

  lemma NothingAddedToItself(a: SchemaGraph)
    ensures Sum(NewMessageParts(a, a)) == Sum(NewEnumParts(a, a)) == Sum(NewServiceParts(a, a)) == multiset{}
  {
    hide Sum;
    if Sum(NewMessageParts(a, a)) != multiset{} {
      var k := EmptySum(NewMessageParts(a, a));
    }
    if Sum(NewEnumParts(a, a)) != multiset{} {
      var k := EmptySum(NewEnumParts(a, a));
    }
    if Sum(NewServiceParts(a, a)) != multiset{} {
      var k := EmptySum(NewServiceParts(a, a));
    }
  }

  // ---- the forward report against the backward report

  predicate RemovalRule(r: Rule) {
    r.FIELD_REMOVED? || r.ENUM_VALUE_REMOVED?
  }

  /** How often the forward report of two schemas must contain v, given their backward report. */
  function Expected(backward: Bag, v: Violation): nat {
    if !RemovalRule(v.rule) then backward[v]
    else if v.level.Warning? then backward[v.(level := Error)] else 0
  }

  /** forward is backward with every removal lowered from an error to a warning. */
  ghost predicate Lowered(backward: Bag, forward: Bag) {
    && (forall v :: forward[v] == Expected(backward, v))
    && (forall v | v in backward && RemovalRule(v.rule) :: v.level == Error)
  }

  lemma LoweredUnion(b1: Bag, f1: Bag, b2: Bag, f2: Bag)
    requires Lowered(b1, f1) && Lowered(b2, f2)
    ensures Lowered(b1 + b2, f1 + f2)
  {
    forall v ensures (f1 + f2)[v] == Expected(b1 + b2, v) {
      assert f1[v] == Expected(b1, v) && f2[v] == Expected(b2, v);
    }
    forall v | v in b1 + b2 && RemovalRule(v.rule) ensures v.level == Error {
      assert v in b1 || v in b2;
    }
  }

  lemma LoweredSame(b: Bag)
    requires forall v | v in b :: !RemovalRule(v.rule)
    ensures Lowered(b, b)
  {
    forall v ensures b[v] == Expected(b, v) {
      if RemovalRule(v.rule) {
        assert v !in b && v.(level := Error) !in b;
      }
    }
  }

  lemma {:induction false} NotLoweredPart<K>(backward: map<K, Bag>, forward: map<K, Bag>) returns (k: K)
    requires backward.Keys == forward.Keys && !Lowered(Sum(backward), Sum(forward))
    ensures k in backward && !Lowered(backward[k], forward[k])
    decreases |backward|
  {
    hide Lowered;
    if backward == map[] {
      assert forward == map[];
      LoweredSame(multiset{});
    }
    k :| k in backward && Sum(backward) == backward[k] + Sum(backward - {k});
    SumSplit(forward, k);
    if Lowered(backward[k], forward[k]) {
      if Lowered(Sum(backward - {k}), Sum(forward - {k})) {
        LoweredUnion(backward[k], forward[k], Sum(backward - {k}), Sum(forward - {k}));
      }
      k := NotLoweredPart(backward - {k}, forward - {k});
    }
  }

  lemma LoweredRemoval(v: Violation)
    requires RemovalRule(v.rule) && v.level == Error
    ensures Lowered(multiset{v}, multiset{v.(level := Warning)})
  {
    forall w ensures multiset{v.(level := Warning)}[w] == Expected(multiset{v}, w) {
      assert RemovalRule(w.rule) && w.level.Warning? ==> w.(level := Error).(level := Warning) == w;
    }
  }

  lemma FieldRules(location: string, o: Field, n: Field)
    ensures forall v | v in NameChange(location, o, n) :: v.rule == FIELD_NAME_CHANGED
    ensures forall v | v in TypeChangeIn(location, o, n) :: v.rule == FIELD_TYPE_CHANGED
    ensures forall v | v in LabelChange(location, o, n) :: v.rule == FIELD_LABEL_CHANGED
    ensures forall v | v in OneOfChange(location, o, n) :: v.rule == FIELD_ONEOF_CHANGED
  {
    hide TypeCompatible, Shown, LabelName;
  }

  lemma NoRemovalInField(msgName: string, o: Field, n: Field)
    ensures forall v: Violation | v in multiset(FieldChanges(msgName, o, n)) :: !RemovalRule(v.rule)
  {
    hide At, NameChange, TypeChangeIn, LabelChange, OneOfChange;
    var loc := At(msgName, o.name);
    FieldRules(loc, o, n);
    forall v: Violation | v in multiset(FieldChanges(msgName, o, n)) ensures !RemovalRule(v.rule) {
      assert v in FieldChanges(msgName, o, n);
      assert v in NameChange(loc, o, n) || v in TypeChangeIn(loc, o, n) || v in LabelChange(loc, o, n)
             || v in OneOfChange(loc, o, n);
    }
  }

  lemma LoweredField(strict: Mode, forward: Mode, o: Message, n: Message, k: int)
    requires !ForwardOnly(strict) && ForwardOnly(forward) && k in o.fields
    ensures Lowered(OldFieldPart(strict, o, n, k), OldFieldPart(forward, o, n, k))
  {
    hide Lowered, FieldChanges, At;
    if k in n.fields {
      NoRemovalInField(o.fullName, o.fields[k], n.fields[k]);
      LoweredSame(multiset(FieldChanges(o.fullName, o.fields[k], n.fields[k])));
    } else {
      var v := FieldRemoved(Error, At(o.fullName, o.fields[k].name));
      LoweredRemoval(v);
    }
  }

  lemma LoweredOldFields(strict: Mode, forward: Mode, o: Message, n: Message)
    requires !ForwardOnly(strict) && ForwardOnly(forward)
    ensures Lowered(Sum(OldFieldParts(strict, o, n)), Sum(OldFieldParts(forward, o, n)))
  {
    hide Lowered, Sum, OldFieldPart;
    var b, f := OldFieldParts(strict, o, n), OldFieldParts(forward, o, n);
    if !Lowered(Sum(b), Sum(f)) {
      var k := NotLoweredPart(b, f);
      LoweredField(strict, forward, o, n, k);
    }
  }

  lemma LoweredFields(strict: Mode, forward: Mode, o: Message, n: Message)
    requires !ForwardOnly(strict) && ForwardOnly(forward)
    ensures Lowered(FieldReport(strict, o, n), FieldReport(forward, o, n))
  {
    hide Lowered, Sum, OldFieldParts, NewFieldParts, RemovalRule;
    LoweredOldFields(strict, forward, o, n);
    var added := Sum(NewFieldParts(o, n));
    NoRemovalAmongAdded(o, n);
    LoweredSame(added);
    LoweredUnion(Sum(OldFieldParts(strict, o, n)), Sum(OldFieldParts(forward, o, n)), added, added);
  }

  lemma NoRemovalAmongAdded(o: Message, n: Message)
    ensures forall v | v in Sum(NewFieldParts(o, n)) :: !RemovalRule(v.rule)
  {
    hide Sum, At;
    forall v | v in Sum(NewFieldParts(o, n)) ensures !RemovalRule(v.rule) {
      var k := SumSource(NewFieldParts(o, n), v);
    }
  }

  lemma {:induction false} LoweredMessage(strict: Mode, forward: Mode, o: Message, n: Message)
    requires !ForwardOnly(strict) && ForwardOnly(forward)
    ensures Lowered(MessageReport(strict, o, n), MessageReport(forward, o, n))
    decreases o
  {
    hide Lowered, Sum, FieldReport;
    LoweredFields(strict, forward, o, n);
    var b, f := NestedParts(strict, o, n), NestedParts(forward, o, n);
    if !Lowered(Sum(b), Sum(f)) {
      var k := NotLoweredPart(b, f);
      if k in n.nested {
        LoweredMessage(strict, forward, o.nested[k], n.nested[k]);
      } else {
        LoweredSame(multiset{});
      }
    }
    LoweredUnion(FieldReport(strict, o, n), FieldReport(forward, o, n), Sum(b), Sum(f));
  }

  lemma LoweredOldValues(strict: Mode, forward: Mode, o: EnumSchema, n: EnumSchema)
    requires !ForwardOnly(strict) && ForwardOnly(forward)
    ensures Lowered(Sum(OldValueParts(strict, o, n)), Sum(OldValueParts(forward, o, n)))
  {
    var b, f := OldValueParts(strict, o, n), OldValueParts(forward, o, n);
    hide Lowered, Sum, At;
    if !Lowered(Sum(b), Sum(f)) {
      var k := NotLoweredPart(b, f);
      LoweredSame(multiset{});
      LoweredRemoval(EnumValueRemoved(Error, At(o.fullName, o.values[k].name)));
    }
  }

  lemma NoRemovalAmongNumbers(o: EnumSchema, n: EnumSchema, v: Violation)
    requires v in Sum(RenumberedParts(o, n))
    ensures !RemovalRule(v.rule)
  {
    hide Sum, At, Decimal;
    var k := SumSource(RenumberedParts(o, n), v);
  }

  lemma NoRemovalAmongNewValues(o: EnumSchema, n: EnumSchema, v: Violation)
    requires v in Sum(NewValueParts(o, n))
    ensures !RemovalRule(v.rule)
  {
    hide Sum, At;
    var k := SumSource(NewValueParts(o, n), v);
  }

  lemma LoweredEnum(strict: Mode, forward: Mode, o: EnumSchema, n: EnumSchema)
    requires !ForwardOnly(strict) && ForwardOnly(forward)
    ensures Lowered(EnumReport(strict, o, n), EnumReport(forward, o, n))
  {
    hide Lowered, Sum, OldValueParts, RenumberedParts, NewValueParts, RemovalRule;
    var b, f := Sum(OldValueParts(strict, o, n)), Sum(OldValueParts(forward, o, n));
    var r, a := Sum(RenumberedParts(o, n)), Sum(NewValueParts(o, n));
    LoweredOldValues(strict, forward, o, n);
    forall v | v in r ensures !RemovalRule(v.rule) {
      NoRemovalAmongNumbers(o, n, v);
    }
    forall v | v in a ensures !RemovalRule(v.rule) {
      NoRemovalAmongNewValues(o, n, v);
    }
    LoweredSame(r);
    LoweredSame(a);
    LoweredUnion(b, f, r, r);
    LoweredUnion(b + r, f + r, a, a);
  }

  lemma LoweredOldMessages(strict: Mode, forward: Mode, a: SchemaGraph, b: SchemaGraph)
    requires !ForwardOnly(strict) && ForwardOnly(forward)
    ensures Lowered(Sum(OldMessageParts(strict, a, b)), Sum(OldMessageParts(forward, a, b)))
  {
    hide Lowered, Sum, MessageReport;
    var p, q := OldMessageParts(strict, a, b), OldMessageParts(forward, a, b);
    if !Lowered(Sum(p), Sum(q)) {
      var k := NotLoweredPart(p, q);
      if k in b.messages {
        LoweredMessage(strict, forward, a.messages[k], b.messages[k]);
      } else {
        LoweredSame(p[k]);
      }
    }
  }

  lemma NoRemovalAmongNewMessages(a: SchemaGraph, b: SchemaGraph, v: Violation)
    requires v in Sum(NewMessageParts(a, b))
    ensures !RemovalRule(v.rule)
  {
    hide Sum;
    var k := SumSource(NewMessageParts(a, b), v);
  }

  lemma LoweredMessages(strict: Mode, forward: Mode, a: SchemaGraph, b: SchemaGraph)
    requires !ForwardOnly(strict) && ForwardOnly(forward)
    ensures Lowered(MessagesReport(strict, a, b), MessagesReport(forward, a, b))
  {
    hide Lowered, Sum, OldMessageParts, NewMessageParts, RemovalRule;
    var r := Sum(NewMessageParts(a, b));
    LoweredOldMessages(strict, forward, a, b);
    forall v | v in r ensures !RemovalRule(v.rule) {
      NoRemovalAmongNewMessages(a, b, v);
    }
    LoweredSame(r);
    LoweredUnion(Sum(OldMessageParts(strict, a, b)), Sum(OldMessageParts(forward, a, b)), r, r);
  }

  lemma LoweredOldEnums(strict: Mode, forward: Mode, a: SchemaGraph, b: SchemaGraph)
    requires !ForwardOnly(strict) && ForwardOnly(forward)
    ensures Lowered(Sum(OldEnumParts(strict, a, b)), Sum(OldEnumParts(forward, a, b)))
  {
    hide Lowered, Sum, EnumReport;
    var p, q := OldEnumParts(strict, a, b), OldEnumParts(forward, a, b);
    if !Lowered(Sum(p), Sum(q)) {
      var k := NotLoweredPart(p, q);
      if k in b.enums {
        LoweredEnum(strict, forward, a.enums[k], b.enums[k]);
      } else {
        LoweredSame(p[k]);
      }
    }
  }

  lemma NoRemovalAmongNewEnums(a: SchemaGraph, b: SchemaGraph, v: Violation)
    requires v in Sum(NewEnumParts(a, b))
    ensures !RemovalRule(v.rule)
  {
    hide Sum;
    var k := SumSource(NewEnumParts(a, b), v);
  }

  lemma LoweredEnums(strict: Mode, forward: Mode, a: SchemaGraph, b: SchemaGraph)
    requires !ForwardOnly(strict) && ForwardOnly(forward)
    ensures Lowered(EnumsReport(strict, a, b), EnumsReport(forward, a, b))
  {
    hide Lowered, Sum, OldEnumParts, NewEnumParts, RemovalRule;
    var r := Sum(NewEnumParts(a, b));
    LoweredOldEnums(strict, forward, a, b);
    forall v | v in r ensures !RemovalRule(v.rule) {
      NoRemovalAmongNewEnums(a, b, v);
    }
    LoweredSame(r);
    LoweredUnion(Sum(OldEnumParts(strict, a, b)), Sum(OldEnumParts(forward, a, b)), r, r);
  }

  lemma MethodRules(location: string, o: RpcMethod, n: RpcMethod)
    ensures forall v | v in InputChange(location, o, n) :: v.rule == RPC_INPUT_TYPE_CHANGED
    ensures forall v | v in OutputChange(location, o, n) :: v.rule == RPC_OUTPUT_TYPE_CHANGED
    ensures forall v | v in ClientChange(location, o, n) :: v.rule == RPC_CLIENT_STREAMING_CHANGED
    ensures forall v | v in ServerChange(location, o, n) :: v.rule == RPC_SERVER_STREAMING_CHANGED
  {
    hide Truth;
  }

  lemma NoRemovalInMethod(svcName: string, o: RpcMethod, n: RpcMethod)
    ensures forall v: Violation | v in multiset(MethodChanges(svcName, o, n)) :: !RemovalRule(v.rule)
  {
    hide At, InputChange, OutputChange, ClientChange, ServerChange;
    var loc := At(svcName, o.name);
    MethodRules(loc, o, n);
    forall v: Violation | v in multiset(MethodChanges(svcName, o, n)) ensures !RemovalRule(v.rule) {
      assert v in MethodChanges(svcName, o, n);
      assert v in InputChange(loc, o, n) || v in OutputChange(loc, o, n) || v in ClientChange(loc, o, n)
             || v in ServerChange(loc, o, n);
    }
  }

  lemma NoRemovalInService(o: Service, n: Service, v: Violation)
    requires v in ServiceReport(o, n)
    ensures !RemovalRule(v.rule)
  {
    hide Sum, At, MethodChanges;
    if v in Sum(OldMethodParts(o, n)) {
      var k := SumSource(OldMethodParts(o, n), v);
      if k in n.methods {
        NoRemovalInMethod(o.fullName, o.methods[k], n.methods[k]);
      }
    } else {
      var k := SumSource(NewMethodParts(o, n), v);
    }
  }

  lemma NoRemovalAmongServices(a: SchemaGraph, b: SchemaGraph, v: Violation)
    requires v in ServicesReport(a, b)
    ensures !RemovalRule(v.rule)
  {
    hide Sum, ServiceReport;
    if v in Sum(OldServiceParts(a, b)) {
      var k := SumSource(OldServiceParts(a, b), v);
      if k in b.services {
        NoRemovalInService(a.services[k], b.services[k], v);
      }
    } else {
      var k := SumSource(NewServiceParts(a, b), v);
    }
  }

  /** For any two schemas the forward check reports what the backward check does, except that removed
      fields and enum values are warnings instead of errors. */
  lemma ForwardReportIsLowered(strict: Mode, forward: Mode, a: SchemaGraph, b: SchemaGraph)
    requires !ForwardOnly(strict) && ForwardOnly(forward)
    ensures Lowered(Report(strict, a, b), Report(forward, a, b))
  {
    hide Lowered, MessagesReport, EnumsReport, ServicesReport;
    var p, s := PackagePart(a, b), ServicesReport(a, b);
    var m, e := MessagesReport(strict, a, b), EnumsReport(strict, a, b);
    var m', e' := MessagesReport(forward, a, b), EnumsReport(forward, a, b);
    LoweredMessages(strict, forward, a, b);
    LoweredEnums(strict, forward, a, b);
    forall v | v in s ensures !RemovalRule(v.rule) {
      NoRemovalAmongServices(a, b, v);
    }
    LoweredSame(s);
    LoweredSame(p);
    LoweredUnion(p, p, m, m');
    LoweredUnion(p + m, p + m', e, e');
    LoweredUnion(p + m + e, p + m' + e', s, s);
  }

  /** Whatever passes a backward check passes the forward check. */
  lemma BackwardImpliesForward(strict: Mode, forward: Mode, a: SchemaGraph, b: SchemaGraph, rs: CheckResult,
                               rf: CheckResult)
    requires !ForwardOnly(strict) && strict != ModeNone && ForwardOnly(forward)
    requires IsResult(strict, a, b, rs) && IsResult(forward, a, b, rf) && rs.compatible
    ensures rf.compatible
  {
    hide Report;
    ForwardReportIsLowered(strict, forward, a, b);
    forall v | v in rf.violations ensures v.level != Error {
      assert multiset(rf.violations)[v] == Expected(multiset(rs.violations), v);
      assert v in rs.violations ==> v.level != Error;
    }
  }
}
