// The comparator of pkg/compatibility/comparator.go: its compare methods append to the violations
// field while they go through the maps of the two schemas in arbitrary order.  A method returns
// false where the source panics.
module Comparators {
  import opened Wrappers
  import opened Schemas
  import opened CompatibilityReports
  import opened SchemaChanges
  import opened Counting

  function Restrict<K>(parts: map<K, Bag>, todo: set<K>): map<K, Bag> {
    map k | k in parts && k in todo :: parts[k]
  }

  /** Halfway through a map: what has been found and what is still to come make up the whole. */
  ghost predicate Progress<K>(found: Bag, base: Bag, parts: map<K, Bag>, todo: set<K>) {
    todo <= parts.Keys && found + Sum(Restrict(parts, todo)) == base + Sum(parts)
  }

  lemma ProgressStarts<K>(base: Bag, parts: map<K, Bag>, todo: set<K>)
    requires todo == parts.Keys
    ensures Progress(base, base, parts, todo)
  {
    assert Restrict(parts, todo) == parts;
  }

  lemma ProgressStep<K>(found: Bag, base: Bag, parts: map<K, Bag>, todo: set<K>, k: K, after: Bag)
    requires Progress(found, base, parts, todo) && k in todo && k in parts && after == found + parts[k]
    ensures Progress(after, base, parts, todo - {k})
  {
    SumSplit(Restrict(parts, todo), k);
    assert Restrict(parts, todo) - {k} == Restrict(parts, todo - {k});
  }

  lemma ProgressEnds<K>(found: Bag, base: Bag, parts: map<K, Bag>)
    requires Progress(found, base, parts, {})
    ensures found == base + Sum(parts)
  {
    assert Restrict(parts, {}) == map[];
  }

  lemma SomeNumber(s: set<int>)
    requires s != {}
    ensures exists k: int :: k in s
  {
    assert (forall k: int :: k !in s) ==> s == {};
  }

  lemma OldMessageKeys(mode: Mode, a: SchemaGraph, b: SchemaGraph)
    ensures OldMessageParts(mode, a, b).Keys == a.messages.Keys
  {
  }

  lemma OldFieldKeys(mode: Mode, o: Message, n: Message)
    ensures OldFieldParts(mode, o, n).Keys == o.fields.Keys
    ensures forall k | k in o.fields :: OldFieldParts(mode, o, n)[k] == OldFieldPart(mode, o, n, k)
  {
    hide OldFieldPart;
  }

  lemma RenumberedKeys(o: EnumSchema, n: EnumSchema)
    ensures RenumberedParts(o, n).Keys == o.valuesByName.Keys
  {
    hide Decimal;
  }

  lemma RenumberedPart(o: EnumSchema, n: EnumSchema, k: string)
    requires k in o.valuesByName
    ensures RenumberedParts(o, n).Keys == o.valuesByName.Keys
    ensures RenumberedParts(o, n)[k] == multiset(Renumbering(o, n, k))
  {
    hide Decimal;
  }

  function Renumbering(o: EnumSchema, n: EnumSchema, k: string): seq<Violation>
    requires k in o.valuesByName
  {
    if k in n.valuesByName && o.valuesByName[k].number != n.valuesByName[k].number
    then [EnumValueRenumbered(At(o.fullName, k), Decimal(o.valuesByName[k].number), Decimal(n.valuesByName[k].number))]
    else []
  }

  lemma OldMessagePart(mode: Mode, a: SchemaGraph, b: SchemaGraph, k: string)
    requires k in a.messages
    ensures k in OldMessageParts(mode, a, b) && OldMessageParts(mode, a, b)[k]
         == if k in b.messages then MessageReport(mode, a.messages[k], b.messages[k]) else multiset{MessageRemoved(k)}
  {
    hide MessageReport;
  }

  lemma NestedKeys(mode: Mode, o: Message, n: Message)
    ensures NestedParts(mode, o, n).Keys == o.nested.Keys
    ensures NestedPanics(o, n)
       <==> exists k :: k in o.nested && k in n.nested && MessagePanics(o.nested[k], n.nested[k])
  {
    hide MessageReport, FieldsPanic;
  }

  lemma NestedPart(mode: Mode, o: Message, n: Message, k: string)
    requires k in o.nested
    ensures NestedParts(mode, o, n)[k]
         == if k in n.nested then MessageReport(mode, o.nested[k], n.nested[k]) else multiset{}
  {
    hide MessageReport;
  }

  lemma OldValueKeys(mode: Mode, o: EnumSchema, n: EnumSchema)
    ensures OldValueParts(mode, o, n).Keys == o.values.Keys
    ensures forall k | k in o.values :: OldValueParts(mode, o, n)[k]
              == if k in n.values then multiset{}
                  else multiset{EnumValueRemoved(RemovalLevel(mode), At(o.fullName, o.values[k].name))}
  {
    hide At, RemovalLevel;
  }

  datatype Summary = Summary(total: nat, errors: nat, warnings: nat, infos: nat, wireBreaking: nat, sourceBreaking: nat)

  datatype CheckResult = CheckResult(compatible: bool, mode: Mode, violations: seq<Violation>, summary: Summary)

  function CountLevel(vs: seq<Violation>, level: Level): nat {
    if vs == [] then 0
    else CountLevel(vs[..|vs| - 1], level) + (if vs[|vs| - 1].level == level then 1 else 0)
  }

  class Comparator {
    const mode: Mode
    const oldSchema: SchemaGraph
    const newSchema: SchemaGraph
    var violations: seq<Violation>

    constructor (mode: Mode, oldSchema: SchemaGraph, newSchema: SchemaGraph)
      ensures this.mode == mode && this.oldSchema == oldSchema && this.newSchema == newSchema && violations == []
    {
      this.mode, this.oldSchema, this.newSchema := mode, oldSchema, newSchema;
      violations := [];
    }

    method AddViolation(v: Violation)
      modifies this`violations
      ensures violations == old(violations) + [v]
    {
      violations := violations + [v];
    }

    method ComparePackages()
      modifies this`violations
      ensures multiset(violations) == multiset(old(violations)) + PackagePart(oldSchema, newSchema)
    {
      if oldSchema.packageName != newSchema.packageName {
        AddViolation(PackageChanged(oldSchema.packageName, newSchema.packageName));
      }
    }

    method CompareField(msgName: string, oldField: Field, newField: Field) returns (ok: bool)
      modifies this`violations
      ensures ok <==> !FieldPanics(oldField, newField)
      ensures ok ==> violations == old(violations) + FieldChanges(msgName, oldField, newField)
    {
      hide At, LabelName, TypeCompatible;
      var location := At(msgName, oldField.name);
      if oldField.name != newField.name {
        AddViolation(FieldNameChanged(location, oldField.name, newField.name));
      }
      assert violations == old(violations) + NameChange(location, oldField, newField);
      ok := CompareType(location, oldField, newField);
      if !ok {
        return;
      }
      hide NameChange, TypeChangeIn;
      CompareLabel(location, oldField, newField);
      hide LabelChange;
      ghost var before := violations;
      if oldField.inOneOf != newField.inOneOf {
        AddViolation(FieldOneOfChanged(location, oldField.inOneOf, newField.inOneOf));
      }
      assert violations == before + OneOfChange(location, oldField, newField);
    }

    /** The part of compareField on the type. */
    method CompareType(location: string, oldField: Field, newField: Field) returns (ok: bool)
      modifies this`violations
      ensures ok <==> !FieldPanics(oldField, newField)
      ensures ok ==> violations == old(violations) + TypeChangeIn(location, oldField, newField)
    {
      hide TypeCompatible;
      if !TypeCompatible(oldField.fieldType, newField.fieldType) {
        var oldName, newName := TypeName(oldField.fieldType), TypeName(newField.fieldType);
        if oldName.None? || newName.None? {
          return false;
        }
        AddViolation(FieldTypeChanged(location, oldName.value, newName.value));
      }
      return true;
    }

    /** The part of compareField on the label. */
    method CompareLabel(location: string, oldField: Field, newField: Field)
      modifies this`violations
      ensures violations == old(violations) + LabelChange(location, oldField, newField)
    {
      if oldField.cardinality != newField.cardinality {
        var level, wireBreaking := Error, true;
        if oldField.cardinality == Optional && newField.cardinality == Repeated {
          level, wireBreaking := Warning, false;
        }
        var oldLabel, newLabel := LabelName(oldField.cardinality), LabelName(newField.cardinality);
        AddViolation(FieldLabelChanged(level, location, oldLabel, newLabel, wireBreaking));
      }
    }

    method CompareMessageFields(oldMsg: Message, newMsg: Message) returns (ok: bool)
      modifies this`violations
      ensures ok <==> !FieldsPanic(oldMsg, newMsg)
      ensures ok ==> multiset(violations) == multiset(old(violations)) + FieldReport(mode, oldMsg, newMsg)
    {
      hide Progress, Sum, FieldChanges, FieldPanics, OldFieldParts, NewFieldParts, At;
      ghost var base, parts := multiset(violations), OldFieldParts(mode, oldMsg, newMsg);
      var todo := oldMsg.fields.Keys;
      OldFieldKeys(mode, oldMsg, newMsg);
      ProgressStarts(base, parts, todo);
      while todo != {}
        invariant todo <= oldMsg.fields.Keys && Progress(multiset(violations), base, parts, todo)
        invariant forall k | k in oldMsg.fields && k !in todo && k in newMsg.fields ::
                  !FieldPanics(oldMsg.fields[k], newMsg.fields[k])
      {
        SomeNumber(todo);
        var fieldNum: int :| fieldNum in todo;
        var oldField := oldMsg.fields[fieldNum];
        ghost var before := violations;
        if fieldNum !in newMsg.fields {
          var level := if mode == Forward || mode == ForwardTransitive then Warning else Error;
          AddViolation(FieldRemoved(level, At(oldMsg.fullName, oldField.name)));
        } else {
          ok := CompareField(oldMsg.fullName, oldField, newMsg.fields[fieldNum]);
          if !ok {
            return;
          }
        }
        ProgressStep(multiset(before), base, parts, todo, fieldNum, multiset(violations));
        todo := todo - {fieldNum};
      }
      ProgressEnds(multiset(violations), base, parts);
      CompareAddedFields(oldMsg, newMsg);
      return true;
    }

    /** The second loop of compareMessageFields. */
    method CompareAddedFields(oldMsg: Message, newMsg: Message)
      modifies this`violations
      ensures multiset(violations) == multiset(old(violations)) + Sum(NewFieldParts(oldMsg, newMsg))
    {
      hide Progress, Sum;
      ghost var base, parts := multiset(violations), NewFieldParts(oldMsg, newMsg);
      var todo := newMsg.fields.Keys;
      ProgressStarts(base, parts, todo);
      while todo != {}
        invariant todo <= newMsg.fields.Keys && Progress(multiset(violations), base, parts, todo)
      {
        SomeNumber(todo);
        var fieldNum: int :| fieldNum in todo;
        var newField := newMsg.fields[fieldNum];
        ghost var before := violations;
        if fieldNum !in oldMsg.fields {
          var location := At(newMsg.fullName, newField.name);
          if newField.cardinality == Required {
            AddViolation(RequiredFieldAdded(location));
          } else {
            AddViolation(FieldAdded(location));
          }
        }
        ProgressStep(multiset(before), base, parts, todo, fieldNum, multiset(violations));
        todo := todo - {fieldNum};
      }
      ProgressEnds(multiset(violations), base, parts);
    }

    /** What is done for each pair of messages, at the top and at every depth. */
    method CompareMessage(oldMsg: Message, newMsg: Message) returns (ok: bool)
      modifies this`violations
      decreases oldMsg, 1
      ensures ok <==> !MessagePanics(oldMsg, newMsg)
      ensures ok ==> multiset(violations) == multiset(old(violations)) + MessageReport(mode, oldMsg, newMsg)
    {
      hide Sum, FieldReport, FieldsPanic, NestedPanics, NestedParts;
      ok := CompareMessageFields(oldMsg, newMsg);
      if ok {
        ok := CompareNestedMessages(oldMsg, newMsg);
      }
    }

    method CompareNestedMessages(oldMsg: Message, newMsg: Message) returns (ok: bool)
      modifies this`violations
      decreases oldMsg, 0
      ensures ok <==> !NestedPanics(oldMsg, newMsg)
      ensures ok ==> multiset(violations) == multiset(old(violations)) + Sum(NestedParts(mode, oldMsg, newMsg))
    {
      hide Progress, Sum, MessageReport, MessagePanics, NestedPanics, NestedParts;
      ghost var base, parts := multiset(violations), NestedParts(mode, oldMsg, newMsg);
      var todo := oldMsg.nested.Keys;
      NestedKeys(mode, oldMsg, newMsg);
      ProgressStarts(base, parts, todo);
      while todo != {}
        invariant todo <= oldMsg.nested.Keys && Progress(multiset(violations), base, parts, todo)
        invariant forall k | k in oldMsg.nested && k !in todo && k in newMsg.nested ::
                    !MessagePanics(oldMsg.nested[k], newMsg.nested[k])
      {
        var nestedName :| nestedName in todo;
        ghost var before := violations;
        if nestedName in newMsg.nested {
          ok := CompareMessage(oldMsg.nested[nestedName], newMsg.nested[nestedName]);
          if !ok {
            return;
          }
        }
        NestedPart(mode, oldMsg, newMsg, nestedName);
        ProgressStep(multiset(before), base, parts, todo, nestedName, multiset(violations));
        todo := todo - {nestedName};
      }
      ProgressEnds(multiset(violations), base, parts);
      return true;
    }

    method CompareMessages() returns (ok: bool)
      modifies this`violations
      ensures ok <==> !Panics(oldSchema, newSchema)
      ensures ok ==> multiset(violations) == multiset(old(violations)) + MessagesReport(mode, oldSchema, newSchema)
    {
      hide Progress, Sum, MessageReport, MessagePanics, OldMessageParts, NewMessageParts;
      ghost var base, parts := multiset(violations), OldMessageParts(mode, oldSchema, newSchema);
      var todo := oldSchema.messages.Keys;
      OldMessageKeys(mode, oldSchema, newSchema);
      ProgressStarts(base, parts, todo);
      while todo != {}
        invariant todo <= oldSchema.messages.Keys && Progress(multiset(violations), base, parts, todo)
        invariant forall k | k in oldSchema.messages && k !in todo && k in newSchema.messages ::
                    !MessagePanics(oldSchema.messages[k], newSchema.messages[k])
      {
        var msgName: string :| msgName in todo;
        ghost var before := violations;
        if msgName !in newSchema.messages {
          AddViolation(MessageRemoved(msgName));
        } else {
          ok := CompareMessage(oldSchema.messages[msgName], newSchema.messages[msgName]);
          if !ok {
            return;
          }
        }
        OldMessagePart(mode, oldSchema, newSchema, msgName);
        ProgressStep(multiset(before), base, parts, todo, msgName, multiset(violations));
        todo := todo - {msgName};
      }
      ProgressEnds(multiset(violations), base, parts);
      CompareAddedMessages();
      return true;
    }

    /** The second loop of compareMessages. */
    method CompareAddedMessages()
      modifies this`violations
      ensures multiset(violations) == multiset(old(violations)) + Sum(NewMessageParts(oldSchema, newSchema))
    {
      hide Progress, Sum;
      ghost var base, parts := multiset(violations), NewMessageParts(oldSchema, newSchema);
      var todo := newSchema.messages.Keys;
      ProgressStarts(base, parts, todo);
      while todo != {}
        invariant todo <= newSchema.messages.Keys && Progress(multiset(violations), base, parts, todo)
      {
        var msgName: string :| msgName in todo;
        ghost var before := violations;
        if msgName !in oldSchema.messages {
          AddViolation(MessageAdded(msgName));
        }
        ProgressStep(multiset(before), base, parts, todo, msgName, multiset(violations));
        todo := todo - {msgName};
      }
      ProgressEnds(multiset(violations), base, parts);
    }

    method CompareEnums()
      modifies this`violations
      ensures multiset(violations) == multiset(old(violations)) + EnumsReport(mode, oldSchema, newSchema)
    {
      hide Progress, Sum, EnumReport;
      ghost var base, parts := multiset(violations), OldEnumParts(mode, oldSchema, newSchema);
      var todo := oldSchema.enums.Keys;
      ProgressStarts(base, parts, todo);
      while todo != {}
        invariant todo <= oldSchema.enums.Keys && Progress(multiset(violations), base, parts, todo)
      {
        var enumName: string :| enumName in todo;
        ghost var before := violations;
        if enumName !in newSchema.enums {
          AddViolation(EnumRemoved(enumName));
        } else {
          CompareEnumValues(oldSchema.enums[enumName], newSchema.enums[enumName]);
        }
        ProgressStep(multiset(before), base, parts, todo, enumName, multiset(violations));
        todo := todo - {enumName};
      }
      ProgressEnds(multiset(violations), base, parts);
      CompareAddedEnums();
    }

    /** The second loop of compareEnums. */
    method CompareAddedEnums()
      modifies this`violations
      ensures multiset(violations) == multiset(old(violations)) + Sum(NewEnumParts(oldSchema, newSchema))
    {
      hide Progress, Sum;
      ghost var base, parts := multiset(violations), NewEnumParts(oldSchema, newSchema);
      var todo := newSchema.enums.Keys;
      ProgressStarts(base, parts, todo);
      while todo != {}
        invariant todo <= newSchema.enums.Keys && Progress(multiset(violations), base, parts, todo)
      {
        var enumName: string :| enumName in todo;
        ghost var before := violations;
        if enumName !in oldSchema.enums {
          AddViolation(EnumAdded(enumName));
        }
        ProgressStep(multiset(before), base, parts, todo, enumName, multiset(violations));
        todo := todo - {enumName};
      }
      ProgressEnds(multiset(violations), base, parts);
    }

    method CompareEnumValues(oldEnum: EnumSchema, newEnum: EnumSchema)
      modifies this`violations
      ensures multiset(violations) == multiset(old(violations)) + EnumReport(mode, oldEnum, newEnum)
    {
      hide Sum;
      CompareRemovedValues(oldEnum, newEnum);
      CompareNumbers(oldEnum, newEnum);
      CompareAddedValues(oldEnum, newEnum);
    }

    /** The first loop of compareEnumValues. */
    method CompareRemovedValues(oldEnum: EnumSchema, newEnum: EnumSchema)
      modifies this`violations
      ensures multiset(violations) == multiset(old(violations)) + Sum(OldValueParts(mode, oldEnum, newEnum))
    {
      hide Progress, Sum, OldValueParts, At;
      ghost var base, parts := multiset(violations), OldValueParts(mode, oldEnum, newEnum);
      var todo := oldEnum.values.Keys;
      OldValueKeys(mode, oldEnum, newEnum);
      ProgressStarts(base, parts, todo);
      while todo != {}
        invariant todo <= oldEnum.values.Keys && Progress(multiset(violations), base, parts, todo)
      {
        SomeNumber(todo);
        var valueNum: int :| valueNum in todo;
        ghost var before := violations;
        if valueNum !in newEnum.values {
          var level := if mode == Forward || mode == ForwardTransitive then Warning else Error;
          AddViolation(EnumValueRemoved(level, At(oldEnum.fullName, oldEnum.values[valueNum].name)));
        }
        ProgressStep(multiset(before), base, parts, todo, valueNum, multiset(violations));
        todo := todo - {valueNum};
      }
      ProgressEnds(multiset(violations), base, parts);
    }

    /** The second loop of compareEnumValues. */
    method CompareNumbers(oldEnum: EnumSchema, newEnum: EnumSchema)
      modifies this`violations
      ensures multiset(violations) == multiset(old(violations)) + Sum(RenumberedParts(oldEnum, newEnum))
    {
      hide Progress, Sum, Decimal, RenumberedParts, At;
      ghost var base, parts := multiset(violations), RenumberedParts(oldEnum, newEnum);
      var todo := oldEnum.valuesByName.Keys;
      RenumberedKeys(oldEnum, newEnum);
      ProgressStarts(base, parts, todo);
      while todo != {}
        invariant todo <= oldEnum.valuesByName.Keys && Progress(multiset(violations), base, parts, todo)
      {
        var valueName: string :| valueName in todo;
        ghost var before := violations;
        if valueName in newEnum.valuesByName {
          var oldValue, newValue := oldEnum.valuesByName[valueName], newEnum.valuesByName[valueName];
          if oldValue.number != newValue.number {
            AddViolation(EnumValueRenumbered(At(oldEnum.fullName, valueName),
                                             Decimal(oldValue.number), Decimal(newValue.number)));
          }
        }
        RenumberedPart(oldEnum, newEnum, valueName);
        assert violations == before + Renumbering(oldEnum, newEnum, valueName);
        ProgressStep(multiset(before), base, parts, todo, valueName, multiset(violations));
        todo := todo - {valueName};
      }
      ProgressEnds(multiset(violations), base, parts);
    }

    /** The third loop of compareEnumValues. */
    method CompareAddedValues(oldEnum: EnumSchema, newEnum: EnumSchema)
      modifies this`violations
      ensures multiset(violations) == multiset(old(violations)) + Sum(NewValueParts(oldEnum, newEnum))
    {
      hide Progress, Sum;
      ghost var base, parts := multiset(violations), NewValueParts(oldEnum, newEnum);
      var todo := newEnum.values.Keys;
      ProgressStarts(base, parts, todo);
      while todo != {}
        invariant todo <= newEnum.values.Keys && Progress(multiset(violations), base, parts, todo)
      {
        SomeNumber(todo);
        var valueNum: int :| valueNum in todo;
        ghost var before := violations;
        if valueNum !in oldEnum.values {
          AddViolation(EnumValueAdded(At(newEnum.fullName, newEnum.values[valueNum].name)));
        }
        ProgressStep(multiset(before), base, parts, todo, valueNum, multiset(violations));
        todo := todo - {valueNum};
      }
      ProgressEnds(multiset(violations), base, parts);
    }

    method CompareServices()
      modifies this`violations
      ensures multiset(violations) == multiset(old(violations)) + ServicesReport(oldSchema, newSchema)
    {
      hide Progress, Sum, ServiceReport;
      ghost var base, parts := multiset(violations), OldServiceParts(oldSchema, newSchema);
      var todo := oldSchema.services.Keys;
      ProgressStarts(base, parts, todo);
      while todo != {}
        invariant todo <= oldSchema.services.Keys && Progress(multiset(violations), base, parts, todo)
      {
        var svcName: string :| svcName in todo;
        ghost var before := violations;
        if svcName !in newSchema.services {
          AddViolation(ServiceRemoved(svcName));
        } else {
          CompareServiceMethods(oldSchema.services[svcName], newSchema.services[svcName]);
        }
        ProgressStep(multiset(before), base, parts, todo, svcName, multiset(violations));
        todo := todo - {svcName};
      }
      ProgressEnds(multiset(violations), base, parts);
      CompareAddedServices();
    }

    /** The second loop of compareServices. */
    method CompareAddedServices()
      modifies this`violations
      ensures multiset(violations) == multiset(old(violations)) + Sum(NewServiceParts(oldSchema, newSchema))
    {
      hide Progress, Sum;
      ghost var base, parts := multiset(violations), NewServiceParts(oldSchema, newSchema);
      var todo := newSchema.services.Keys;
      ProgressStarts(base, parts, todo);
      while todo != {}
        invariant todo <= newSchema.services.Keys && Progress(multiset(violations), base, parts, todo)
      {
        var svcName: string :| svcName in todo;
        ghost var before := violations;
        if svcName !in oldSchema.services {
          AddViolation(ServiceAdded(svcName));
        }
        ProgressStep(multiset(before), base, parts, todo, svcName, multiset(violations));
        todo := todo - {svcName};
      }
      ProgressEnds(multiset(violations), base, parts);
    }

    method CompareServiceMethods(oldSvc: Service, newSvc: Service)
      modifies this`violations
      ensures multiset(violations) == multiset(old(violations)) + ServiceReport(oldSvc, newSvc)
    {
      hide Progress, Sum, MethodChanges;
      ghost var base, parts := multiset(violations), OldMethodParts(oldSvc, newSvc);
      var todo := oldSvc.methods.Keys;
      ProgressStarts(base, parts, todo);
      while todo != {}
        invariant todo <= oldSvc.methods.Keys && Progress(multiset(violations), base, parts, todo)
      {
        var methodName: string :| methodName in todo;
        ghost var before := violations;
        if methodName !in newSvc.methods {
          AddViolation(RpcRemoved(At(oldSvc.fullName, methodName)));
        } else {
          CompareMethod(oldSvc.fullName, oldSvc.methods[methodName], newSvc.methods[methodName]);
        }
        ProgressStep(multiset(before), base, parts, todo, methodName, multiset(violations));
        todo := todo - {methodName};
      }
      ProgressEnds(multiset(violations), base, parts);
      CompareAddedMethods(oldSvc, newSvc);
    }

    /** The second loop of compareServiceMethods. */
    method CompareAddedMethods(oldSvc: Service, newSvc: Service)
      modifies this`violations
      ensures multiset(violations) == multiset(old(violations)) + Sum(NewMethodParts(oldSvc, newSvc))
    {
      hide Progress, Sum;
      ghost var base, parts := multiset(violations), NewMethodParts(oldSvc, newSvc);
      var todo := newSvc.methods.Keys;
      ProgressStarts(base, parts, todo);
      while todo != {}
        invariant todo <= newSvc.methods.Keys && Progress(multiset(violations), base, parts, todo)
      {
        var methodName: string :| methodName in todo;
        ghost var before := violations;
        if methodName !in oldSvc.methods {
          AddViolation(RpcAdded(At(newSvc.fullName, methodName)));
        }
        ProgressStep(multiset(before), base, parts, todo, methodName, multiset(violations));
        todo := todo - {methodName};
      }
      ProgressEnds(multiset(violations), base, parts);
    }

    method CompareMethod(svcName: string, oldMethod: RpcMethod, newMethod: RpcMethod)
      modifies this`violations
      ensures violations == old(violations) + MethodChanges(svcName, oldMethod, newMethod)
    {
      hide InputChange, OutputChange, ClientChange, ServerChange, At;
      var location := At(svcName, oldMethod.name);
      CompareMethodTypes(location, oldMethod, newMethod);
      CompareStreaming(location, oldMethod, newMethod);
    }

    /** The part of compareMethod on the input and output types. */
    method CompareMethodTypes(location: string, oldMethod: RpcMethod, newMethod: RpcMethod)
      modifies this`violations
      ensures violations
           == old(violations) + InputChange(location, oldMethod, newMethod)
               + OutputChange(location, oldMethod, newMethod)
    {
      if oldMethod.inputType != newMethod.inputType {
        AddViolation(RpcInputTypeChanged(location, oldMethod.inputType, newMethod.inputType));
      }
      if oldMethod.outputType != newMethod.outputType {
        AddViolation(RpcOutputTypeChanged(location, oldMethod.outputType, newMethod.outputType));
      }
    }

    /** The part of compareMethod on streaming. */
    method CompareStreaming(location: string, oldMethod: RpcMethod, newMethod: RpcMethod)
      modifies this`violations
      ensures violations
           == old(violations) + ClientChange(location, oldMethod, newMethod)
               + ServerChange(location, oldMethod, newMethod)
    {
      hide Truth;
      if oldMethod.clientStreaming != newMethod.clientStreaming {
        AddViolation(RpcClientStreamingChanged(location,
                                               Truth(oldMethod.clientStreaming), Truth(newMethod.clientStreaming)));
      }
      if oldMethod.serverStreaming != newMethod.serverStreaming {
        AddViolation(RpcServerStreamingChanged(location,
                                               Truth(oldMethod.serverStreaming), Truth(newMethod.serverStreaming)));
      }
    }

    method GenerateSummary() returns (s: Summary)
      ensures s == SummaryOf(violations) && Tallies(s, violations)
      ensures s.errors + s.warnings + s.infos == s.total == |violations|
    {
      s := Summary(|violations|, 0, 0, 0, 0, 0);
      for i := 0 to |violations|
        invariant s == SummaryOf(violations[..i]).(total := |violations|)
        invariant s.errors + s.warnings + s.infos == i
      {
        var v := violations[i];
        assert violations[..i + 1][..i] == violations[..i];
        match v.level {
          case Error => s := s.(errors := s.errors + 1);
          case Warning => s := s.(warnings := s.warnings + 1);
          case Info => s := s.(infos := s.infos + 1);
        }
        if v.wireBreaking {
          s := s.(wireBreaking := s.wireBreaking + 1);
        }
        if v.sourceBreaking {
          s := s.(sourceBreaking := s.sourceBreaking + 1);
        }
      }
      assert violations[..|violations|] == violations;
      SummaryTallies(violations);
    }

    /** The loop of Compare over the violations. */
    method IsCompatible() returns (compatible: bool)
      ensures compatible <==> forall v | v in violations :: v.level != Error
    {
      compatible := true;
      for i := 0 to |violations|
        invariant compatible <==> forall j | 0 <= j < i :: violations[j].level != Error
      {
        if violations[i].level == Error {
          compatible := false;
          break;
        }
      }
    }

    /** None where the source panics. */
    method Compare() returns (r: Option<CheckResult>)
      modifies this`violations
      ensures r.None? <==> mode != ModeNone && Panics(oldSchema, newSchema)
      ensures r.Some? ==> IsResult(mode, oldSchema, newSchema, r.value)
      ensures r.Some? ==> violations == r.value.violations
      ensures r.Some? && mode != ModeNone ==>
                forall v :: OccursAsSaid(mode, oldSchema, newSchema, multiset(r.value.violations), v)
      ensures r.Some? && mode == ModeNone ==> r.value == CheckResult(true, mode, [], Summary(0, 0, 0, 0, 0, 0))
    {
      hide Report, Panics, MessagesReport, EnumsReport, ServicesReport, PackagePart, OccursAsSaid, Tallies;
      violations := [];
      if mode == ModeNone {
        SummaryTallies([]);
        return Some(CheckResult(true, mode, violations, Summary(0, 0, 0, 0, 0, 0)));
      }
      hide CountLevel, CountWhere;
      ComparePackages();
      var ok := CompareMessages();
      if !ok {
        return None;
      }
      CompareEnums();
      CompareServices();
      ReportInParts(mode, oldSchema, newSchema);
      var compatible := IsCompatible();
      var summary := GenerateSummary();
      ErrorsCounted(violations);
      forall v ensures OccursAsSaid(mode, oldSchema, newSchema, multiset(violations), v) {
        ReportSaysWhatChanged(mode, oldSchema, newSchema, v);
      }
      return Some(CheckResult(compatible, mode, violations, summary));
    }
  }

  lemma ReportInParts(mode: Mode, a: SchemaGraph, b: SchemaGraph)
    ensures Report(mode, a, b)
         == multiset([]) + PackagePart(a, b) + MessagesReport(mode, a, b) + EnumsReport(mode, a, b)
             + ServicesReport(a, b)
  {
  }

  function CountWhere(vs: seq<Violation>, wire: bool): nat {
    if vs == [] then 0
    else
      CountWhere(vs[..|vs| - 1], wire)
      + (if (if wire then vs[|vs| - 1].wireBreaking else vs[|vs| - 1].sourceBreaking) then 1 else 0)
  }

  function SummaryOf(vs: seq<Violation>): Summary {
    Summary(|vs|, CountLevel(vs, Error), CountLevel(vs, Warning), CountLevel(vs, Info), CountWhere(vs, true),
        CountWhere(vs, false))
  }

  function AtLevel(vs: seq<Violation>, level: Level): (at: set<int>)
    ensures forall i :: i in at <==> 0 <= i < |vs| && vs[i].level == level
  {
    set i | 0 <= i < |vs| && vs[i].level == level
  }

  function WireBreaking(vs: seq<Violation>): (at: set<int>)
    ensures forall i :: i in at <==> 0 <= i < |vs| && vs[i].wireBreaking
  {
    set i | 0 <= i < |vs| && vs[i].wireBreaking
  }

  function SourceBreaking(vs: seq<Violation>): (at: set<int>)
    ensures forall i :: i in at <==> 0 <= i < |vs| && vs[i].sourceBreaking
  {
    set i | 0 <= i < |vs| && vs[i].sourceBreaking
  }

  /** The counts are the numbers of violations of each level and with each flag. */
  ghost predicate Tallies(s: Summary, vs: seq<Violation>) {
    && s.total == |vs| && s.errors == |AtLevel(vs, Error)| && s.warnings == |AtLevel(vs, Warning)|
    && s.infos == |AtLevel(vs, Info)| && s.wireBreaking == |WireBreaking(vs)|
    && s.sourceBreaking == |SourceBreaking(vs)|
  }

  lemma {:induction false} LevelPositions(vs: seq<Violation>, level: Level)
    ensures CountLevel(vs, level) == |AtLevel(vs, level)|
  {
    if vs != [] {
      var before := vs[..|vs| - 1];
      LevelPositions(before, level);
      hide AtLevel;
      PositionsMore(vs, (v: Violation) => v.level == level, AtLevel(before, level), AtLevel(vs, level));
    }
  }

  lemma {:induction false} FlagPositions(vs: seq<Violation>)
    ensures CountWhere(vs, true) == |WireBreaking(vs)| && CountWhere(vs, false) == |SourceBreaking(vs)|
  {
    if vs != [] {
      var before := vs[..|vs| - 1];
      FlagPositions(before);
      hide WireBreaking, SourceBreaking;
      PositionsMore(vs, (v: Violation) => v.wireBreaking, WireBreaking(before), WireBreaking(vs));
      PositionsMore(vs, (v: Violation) => v.sourceBreaking, SourceBreaking(before), SourceBreaking(vs));
    }
  }

  lemma SummaryTallies(vs: seq<Violation>)
    ensures Tallies(SummaryOf(vs), vs)
  {
    hide CountLevel, CountWhere, AtLevel, WireBreaking, SourceBreaking;
    LevelPositions(vs, Error);
    LevelPositions(vs, Warning);
    LevelPositions(vs, Info);
    FlagPositions(vs);
  }

  lemma {:induction false} ErrorsCounted(vs: seq<Violation>)
    ensures CountLevel(vs, Error) == 0 <==> forall v | v in vs :: v.level != Error
  {
    if vs != [] {
      ErrorsCounted(vs[..|vs| - 1]);
      assert vs == vs[..|vs| - 1] + [vs[|vs| - 1]];
    }
  }

  /** The report, whether it holds an error, and its counts; nothing at all is reported in mode NONE. */
  ghost predicate IsResult(mode: Mode, a: SchemaGraph, b: SchemaGraph, r: CheckResult) {
    && r.mode == mode
    && multiset(r.violations) == (if mode == ModeNone then multiset{} else Report(mode, a, b))
    && (r.compatible <==> forall v | v in r.violations :: v.level != Error)
    && (r.compatible <==> r.summary.errors == 0)
    && r.summary == SummaryOf(r.violations) && Tallies(r.summary, r.violations)
    && r.summary.errors + r.summary.warnings + r.summary.infos == r.summary.total == |r.violations|
  }

  method CheckCompatibility(oldSchema: SchemaGraph, newSchema: SchemaGraph, mode: Mode) returns (r: Option<CheckResult>)
    ensures r.None? <==> mode != ModeNone && Panics(oldSchema, newSchema)
    ensures r.Some? ==> IsResult(mode, oldSchema, newSchema, r.value)
    ensures r.Some? && mode != ModeNone ==>
              forall v :: OccursAsSaid(mode, oldSchema, newSchema, multiset(r.value.violations), v)
    ensures r.Some? && mode == ModeNone ==> r.value == CheckResult(true, mode, [], Summary(0, 0, 0, 0, 0, 0))
  {
    hide IsResult, OccursAsSaid, Panics;
    var comparator := new Comparator(mode, oldSchema, newSchema);
    r := comparator.Compare();
  }
}
