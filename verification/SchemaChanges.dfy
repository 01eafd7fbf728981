// The report of a compatibility check read off the two schemas: each place where they differ, and the
// violation that stands for the difference, spelled out in full.
module SchemaChanges {
  import opened Wrappers
  import opened Schemas
  import opened CompatibilityReports
  import opened Counting

  // ---- the places

  datatype FieldAspect = FieldPresence | FieldName | FieldKind | FieldCardinality | FieldOneOf

  /** An aspect of a field, by its number, of the message at the end of a path of nested messages. */
  datatype FieldPlace = FieldPlace(path: seq<string>, number: int, aspect: FieldAspect)

  /** A value of an enum, by its number or by its name. */
  datatype EnumPlace = AtNumber(number: int) | AtName(name: string)

  datatype RpcAspect = RpcPresence | RpcInput | RpcOutput | RpcClient | RpcServer

  datatype RpcPlace = RpcPlace(name: string, aspect: RpcAspect)

  datatype Place =
    | OfPackage
    | OfMessage(name: string)
    | OfField(field: FieldPlace)
    | OfEnum(name: string)
    | OfEnumValue(name: string, value: EnumPlace)
    | OfService(name: string)
    | OfRpc(name: string, rpc: RpcPlace)

  // ---- what a violation says of a place

  ghost predicate FieldSays(mode: Mode, o: Message, n: Message, k: int, aspect: FieldAspect, v: Violation) {
    if k in o.fields && k in n.fields then
      var x, y, location := o.fields[k], n.fields[k], o.fullName + "." + o.fields[k].name;
      match aspect
      case FieldPresence => false
      case FieldName =>
        x.name != y.name
        && v == Violation(FIELD_NAME_CHANGED, Warning, FieldChange, location, x.name, y.name, false, true)
      case FieldKind =>
        !TypeCompatible(x.fieldType, y.fieldType)
        && TypeName(x.fieldType) == Some(v.oldValue) && TypeName(y.fieldType) == Some(v.newValue)
        && v == Violation(FIELD_TYPE_CHANGED, Error, TypeChange, location, v.oldValue, v.newValue, true, true)
      case FieldCardinality =>
        x.cardinality != y.cardinality
        && var before := if x.cardinality == Optional then "optional" else if x.cardinality == Required then "required"
               else "repeated";
           var after := if y.cardinality == Optional then "optional" else if y.cardinality == Required then "required"
               else "repeated";
           if x.cardinality == Optional && y.cardinality == Repeated
           then v == Violation(FIELD_LABEL_CHANGED, Warning, FieldChange, location, before, after, false, true)
           else v == Violation(FIELD_LABEL_CHANGED, Error, FieldChange, location, before, after, true, true)
      case FieldOneOf =>
        x.inOneOf != y.inOneOf
        && v == Violation(FIELD_ONEOF_CHANGED, Error, FieldChange, location, x.inOneOf, y.inOneOf, true, true)
    else if aspect != FieldPresence then false
    else if k in o.fields then
      var location := o.fullName + "." + o.fields[k].name;
      if mode == Forward || mode == ForwardTransitive
      then v == Violation(FIELD_REMOVED, Warning, FieldChange, location, "", "", false, true)
      else v == Violation(FIELD_REMOVED, Error, FieldChange, location, "", "", false, true)
    else if k in n.fields then
      var location := n.fullName + "." + n.fields[k].name;
      if n.fields[k].cardinality == Required
      then v == Violation(REQUIRED_FIELD_ADDED, Error, FieldChange, location, "", "", true, true)
      else v == Violation(FIELD_ADDED, Info, FieldChange, location, "", "", false, false)
    else false
  }

  /** The message at the end of the path. */
  function Below(m: Message, path: seq<string>): Option<Message>
    decreases |path|
  {
    if path == [] then Some(m)
    else if path[0] in m.nested then Below(m.nested[path[0]], path[1..])
    else None
  }

  /** Nested messages are compared where both sides have them. */
  ghost predicate MessageSays(mode: Mode, o: Message, n: Message, p: FieldPlace, v: Violation) {
    && Below(o, p.path).Some? && Below(n, p.path).Some?
    && FieldSays(mode, Below(o, p.path).value, Below(n, p.path).value, p.number, p.aspect, v)
  }

  ghost predicate EnumSays(mode: Mode, o: EnumSchema, n: EnumSchema, p: EnumPlace, v: Violation) {
    match p
    case AtNumber(k) =>
      if k in o.values && k !in n.values then
        var location := o.fullName + "." + o.values[k].name;
        if mode == Forward || mode == ForwardTransitive
        then v == Violation(ENUM_VALUE_REMOVED, Warning, EnumChange, location, "", "", false, true)
        else v == Violation(ENUM_VALUE_REMOVED, Error, EnumChange, location, "", "", false, true)
      else
        && k !in o.values && k in n.values
        && v == Violation(ENUM_VALUE_ADDED, Info, EnumChange, n.fullName + "." + n.values[k].name, "", "", false, false)
    case AtName(k) =>
      && k in o.valuesByName && k in n.valuesByName && o.valuesByName[k].number != n.valuesByName[k].number
      && v == Violation(ENUM_VALUE_NUMBER_CHANGED, Error, EnumChange, o.fullName + "." + k,
                        Decimal(o.valuesByName[k].number), Decimal(n.valuesByName[k].number), true, true)
  }

  ghost predicate RpcSays(o: Service, n: Service, p: RpcPlace, v: Violation) {
    var k := p.name;
    if k in o.methods && k in n.methods then
      var x, y, location := o.methods[k], n.methods[k], o.fullName + "." + o.methods[k].name;
      match p.aspect
      case RpcPresence => false
      case RpcInput =>
        x.inputType != y.inputType
        && v == Violation(RPC_INPUT_TYPE_CHANGED, Error, ServiceChange, location, x.inputType, y.inputType, true, true)
      case RpcOutput =>
        x.outputType != y.outputType
        && v == Violation(RPC_OUTPUT_TYPE_CHANGED, Error, ServiceChange, location, x.outputType, y.outputType, true,
                          true)
      case RpcClient =>
        x.clientStreaming != y.clientStreaming
        && v == Violation(RPC_CLIENT_STREAMING_CHANGED, Error, ServiceChange, location,
                          if x.clientStreaming then "true" else "false", if y.clientStreaming then "true" else "false",
                          true, true)
      case RpcServer =>
        x.serverStreaming != y.serverStreaming
        && v == Violation(RPC_SERVER_STREAMING_CHANGED, Error, ServiceChange, location,
                          if x.serverStreaming then "true" else "false", if y.serverStreaming then "true" else "false",
                          true, true)
    else if p.aspect != RpcPresence then false
    else if k in o.methods then
      v == Violation(RPC_REMOVED, Error, ServiceChange, o.fullName + "." + k, "", "", true, true)
    else
      k in n.methods && v == Violation(RPC_ADDED, Info, ServiceChange, n.fullName + "." + k, "", "", false, false)
  }

  ghost predicate Says(mode: Mode, a: SchemaGraph, b: SchemaGraph, p: Place, v: Violation) {
    match p
    case OfPackage =>
      a.packageName != b.packageName
      && v == Violation(PACKAGE_CHANGED, Error, PackageChange, "package", a.packageName, b.packageName, false, true)
    case OfMessage(k) =>
      if k in a.messages && k !in b.messages
      then v == Violation(MESSAGE_REMOVED, Error, TypeChange, k, "", "", true, true)
      else k !in a.messages && k in b.messages
           && v == Violation(MESSAGE_ADDED, Info, TypeChange, k, "", "", false, false)
    case OfField(f) =>
      && f.path != [] && f.path[0] in a.messages && f.path[0] in b.messages
      && MessageSays(mode, a.messages[f.path[0]], b.messages[f.path[0]], f.(path := f.path[1..]), v)
    case OfEnum(k) =>
      if k in a.enums && k !in b.enums
      then v == Violation(ENUM_REMOVED, Error, EnumChange, k, "", "", true, true)
      else k !in a.enums && k in b.enums && v == Violation(ENUM_ADDED, Info, EnumChange, k, "", "", false, false)
    case OfEnumValue(k, p) =>
      k in a.enums && k in b.enums && EnumSays(mode, a.enums[k], b.enums[k], p, v)
    case OfService(k) =>
      if k in a.services && k !in b.services
      then v == Violation(SERVICE_REMOVED, Error, ServiceChange, k, "", "", true, true)
      else k !in a.services && k in b.services
           && v == Violation(SERVICE_ADDED, Info, ServiceChange, k, "", "", false, false)
    case OfRpc(k, p) =>
      k in a.services && k in b.services && RpcSays(a.services[k], b.services[k], p, v)
  }

  ghost predicate AllSaying(all: set<Place>, mode: Mode, a: SchemaGraph, b: SchemaGraph, v: Violation) {
    forall p :: p in all <==> Says(mode, a, b, p, v)
  }

  /** The violation occurs as often as there are places of which it says something. */
  ghost predicate OccursAsSaid(mode: Mode, a: SchemaGraph, b: SchemaGraph, vs: Bag, v: Violation) {
    exists all :: AllSaying(all, mode, a, b, v) && |all| == vs[v]
  }

  // ---- sums of counts

  /** The sets are disjoint, and all is their union. */
  ghost predicate Partition<K(!new), T(!new)>(places: map<K, set<T>>, all: set<T>) {
    && (forall j, k, t | j in places && k in places && t in places[j] && t in places[k] :: j == k)
    && (forall t :: t in all <==> InSome(places, t))
  }

  ghost predicate InSome<K(!new), T(!new)>(places: map<K, set<T>>, t: T) {
    exists k :: k in places && t in places[k]
  }

  lemma InSomeAt<K(!new), T(!new)>(places: map<K, set<T>>, k: K, t: T)
    requires k in places && t in places[k]
    ensures InSome(places, t)
  {
  }

  lemma SomeKey<K(!new), T(!new)>(places: map<K, set<T>>, t: T) returns (k: K)
    requires InSome(places, t)
    ensures k in places && t in places[k]
  {
    k :| k in places && t in places[k];
  }

  lemma PartitionWithout<K(!new), T(!new)>(places: map<K, set<T>>, all: set<T>, k: K)
    requires Partition(places, all) && k in places
    ensures Partition(places - {k}, all - places[k]) && |all| == |places[k]| + |all - places[k]|
  {
    var rest := all - places[k];
    forall t ensures t in rest <==> InSome(places - {k}, t) {
      if t in rest {
        var j :| j in places && t in places[j];
        InSomeAt(places - {k}, j, t);
      }
    }
    assert all == places[k] + rest;
    DisjointSize(places[k], rest);
  }

  lemma PartitionOfNothing<K(!new), T(!new)>(places: map<K, set<T>>, all: set<T>)
    requires Partition(places, all) && places == map[]
    ensures |all| == 0
  {
    assert all == {};
  }

  /** If each part holds v as often as it has places, so does the union. */
  lemma {:induction false} SumCount<K(!new), T(!new)>(parts: map<K, Bag>, v: Violation, places: map<K, set<T>>,
                                                     all: set<T>)
    requires places.Keys == parts.Keys && (forall k | k in parts :: parts[k][v] == |places[k]|)
    requires Partition(places, all)
    ensures Sum(parts)[v] == |all|
    decreases |parts|
  {
    hide Partition;
    if parts == map[] {
      PartitionOfNothing(places, all);
    } else {
      var k :| k in parts;
      SumSplit(parts, k);
      PartitionWithout(places, all, k);
      hide Sum;
      SumCount(parts - {k}, v, places - {k}, all - places[k]);
    }
  }

  // ---- fields

  /** A violation's rule tells the aspect. */
  lemma OneAspect(mode: Mode, o: Message, n: Message, k: int, v: Violation, x: FieldAspect, y: FieldAspect)
    requires FieldSays(mode, o, n, k, x, v) && FieldSays(mode, o, n, k, y, v)
    ensures x == y
  {
    hide TypeCompatible, TypeName;
  }

  ghost predicate FieldSaid(mode: Mode, o: Message, n: Message, k: int, v: Violation) {
    exists x :: FieldSays(mode, o, n, k, x, v)
  }

  ghost function AspectPlaces(mode: Mode, o: Message, n: Message, k: int, v: Violation): (ps: set<FieldPlace>)
    ensures forall p :: p in ps <==> p.path == [] && p.number == k && FieldSays(mode, o, n, k, p.aspect, v)
    ensures |ps| == if FieldSaid(mode, o, n, k, v) then 1 else 0
  {
    hide FieldSays;
    if FieldSaid(mode, o, n, k, v) then
      var x :| FieldSays(mode, o, n, k, x, v);
      assert forall y | FieldSays(mode, o, n, k, y, v) :: y == x by {
        forall y | FieldSays(mode, o, n, k, y, v) ensures y == x {
          OneAspect(mode, o, n, k, v, x, y);
        }
      }
      {FieldPlace([], k, x)}
    else {}
  }

  lemma FourParts(a: seq<Violation>, b: seq<Violation>, c: seq<Violation>, d: seq<Violation>, v: Violation)
    requires |a| <= 1 && |b| <= 1 && |c| <= 1 && |d| <= 1
    ensures multiset(a + b + c + d)[v]
         == (if v in a then 1 else 0) + (if v in b then 1 else 0) + (if v in c then 1 else 0)
            + (if v in d then 1 else 0)
  {
    AtMostOnce(a, v);
    AtMostOnce(b, v);
    AtMostOnce(c, v);
    AtMostOnce(d, v);
  }

  lemma FieldChangesSay(mode: Mode, o: Message, n: Message, k: int, v: Violation)
    requires k in o.fields && k in n.fields && !FieldPanics(o.fields[k], n.fields[k])
    ensures var x, y, location := o.fields[k], n.fields[k], At(o.fullName, o.fields[k].name);
            && (v in NameChange(location, x, y) <==> FieldSays(mode, o, n, k, FieldName, v))
            && (v in TypeChangeIn(location, x, y) <==> FieldSays(mode, o, n, k, FieldKind, v))
            && (v in LabelChange(location, x, y) <==> FieldSays(mode, o, n, k, FieldCardinality, v))
            && (v in OneOfChange(location, x, y) <==> FieldSays(mode, o, n, k, FieldOneOf, v))
            && !FieldSays(mode, o, n, k, FieldPresence, v)
  {
    hide TypeCompatible;
    NamedUnlessMap(o.fields[k].fieldType);
    NamedUnlessMap(n.fields[k].fieldType);
    hide TypeName;
  }

  lemma NamedUnlessMap(t: FieldType)
    ensures TypeName(t).Some? <==> !t.MapType?
    ensures TypeName(t).Some? ==> Shown(t) == TypeName(t).value
  {
  }

  lemma ChangesCount(mode: Mode, o: Message, n: Message, k: int, v: Violation)
    requires k in o.fields && k in n.fields && !FieldPanics(o.fields[k], n.fields[k])
    ensures multiset(FieldChanges(o.fullName, o.fields[k], n.fields[k]))[v] == |AspectPlaces(mode, o, n, k, v)|
  {
    var x, y, location := o.fields[k], n.fields[k], At(o.fullName, o.fields[k].name);
    FourParts(NameChange(location, x, y), TypeChangeIn(location, x, y), LabelChange(location, x, y),
              OneOfChange(location, x, y), v);
    FieldChangesSay(mode, o, n, k, v);
    hide NameChange, TypeChangeIn, LabelChange, OneOfChange, FieldSays, FieldPanics, AspectPlaces;
    if FieldSaid(mode, o, n, k, v) {
      var x :| FieldSays(mode, o, n, k, x, v);
      forall y | FieldSays(mode, o, n, k, y, v) ensures y == x {
        OneAspect(mode, o, n, k, v, x, y);
      }
    }
  }

  lemma PresencePlaces(mode: Mode, o: Message, n: Message, k: int, v: Violation)
    requires !(k in o.fields && k in n.fields)
    ensures FieldSaid(mode, o, n, k, v) <==> FieldSays(mode, o, n, k, FieldPresence, v)
  {
  }

  lemma OldFieldCount(mode: Mode, o: Message, n: Message, k: int, v: Violation)
    requires k in o.fields && !FieldsPanic(o, n)
    ensures OldFieldPart(mode, o, n, k)[v] == |AspectPlaces(mode, o, n, k, v)|
  {
    hide AspectPlaces, FieldChanges, FieldPanics;
    if k in n.fields {
      ChangesCount(mode, o, n, k, v);
    } else {
      PresencePlaces(mode, o, n, k, v);
    }
  }

  lemma NewFieldCount(mode: Mode, o: Message, n: Message, k: int, v: Violation)
    requires k in n.fields && k !in o.fields
    ensures NewFieldPart(o, n, k)[v] == |AspectPlaces(mode, o, n, k, v)|
  {
    hide AspectPlaces;
    PresencePlaces(mode, o, n, k, v);
  }

  ghost function FieldPlaces(mode: Mode, o: Message, n: Message, ks: set<int>, v: Violation): (ps: set<FieldPlace>)
    ensures forall p :: p in ps <==> p.path == [] && p.number in ks && FieldSays(mode, o, n, p.number, p.aspect, v)
  {
    hide FieldSays, AspectPlaces;
    assert forall p: FieldPlace | p.path == [] && FieldSays(mode, o, n, p.number, p.aspect, v) ::
        p in AspectPlaces(mode, o, n, p.number, v);
    set k, p | k in ks && p in AspectPlaces(mode, o, n, k, v) :: p
  }

  lemma FieldPlacesPartition(mode: Mode, o: Message, n: Message, ks: set<int>, v: Violation,
                             places: map<int, set<FieldPlace>>)
    requires ks <= places.Keys
    requires forall k | k in places :: places[k] == if k in ks then AspectPlaces(mode, o, n, k, v) else {}
    ensures Partition(places, FieldPlaces(mode, o, n, ks, v))
  {
    hide FieldSays, AspectPlaces, FieldPlaces;
    var all := FieldPlaces(mode, o, n, ks, v);
    forall t ensures t in all <==> InSome(places, t) {
      if t in all {
        assert t in AspectPlaces(mode, o, n, t.number, v);
        InSomeAt(places, t.number, t);
      }
      if InSome(places, t) {
        var k := SomeKey(places, t);
        assert k in ks && t in AspectPlaces(mode, o, n, k, v);
        assert t.path == [] && t.number == k && FieldSays(mode, o, n, k, t.aspect, v);
      }
    }
    forall j, k, t | j in places && k in places && t in places[j] && t in places[k] ensures j == k {
      assert t.number == j == k;
    }
  }

  lemma NewFieldKeys(o: Message, n: Message)
    ensures NewFieldParts(o, n).Keys == n.fields.Keys
    ensures forall k | k in n.fields :: NewFieldParts(o, n)[k] == NewFieldPart(o, n, k)
  {
    hide NewFieldPart;
  }

  lemma OldFieldsCount(mode: Mode, o: Message, n: Message, v: Violation)
    requires !FieldsPanic(o, n)
    ensures Sum(OldFieldParts(mode, o, n))[v] == |FieldPlaces(mode, o, n, o.fields.Keys, v)|
  {
    hide FieldSays, FieldsPanic, OldFieldPart, Sum, AspectPlaces, FieldPlaces, Partition;
    var places := map k | k in o.fields :: AspectPlaces(mode, o, n, k, v);
    forall k | k in o.fields ensures OldFieldParts(mode, o, n)[k][v] == |places[k]| {
      OldFieldCount(mode, o, n, k, v);
    }
    FieldPlacesPartition(mode, o, n, o.fields.Keys, v, places);
    SumCount(OldFieldParts(mode, o, n), v, places, FieldPlaces(mode, o, n, o.fields.Keys, v));
  }

  lemma NewFieldsCount(mode: Mode, o: Message, n: Message, v: Violation)
    ensures Sum(NewFieldParts(o, n))[v] == |FieldPlaces(mode, o, n, n.fields.Keys - o.fields.Keys, v)|
  {
    hide FieldSays, Sum, AspectPlaces, FieldPlaces, Partition, NewFieldPart, NewFieldParts, FieldSaid;
    var ks := n.fields.Keys - o.fields.Keys;
    var places := map k | k in n.fields :: if k in ks then AspectPlaces(mode, o, n, k, v) else {};
    NewFieldKeys(o, n);
    forall k | k in n.fields ensures NewFieldParts(o, n)[k][v] == |places[k]| {
      NewPartCount(mode, o, n, k, v);
    }
    FieldPlacesPartition(mode, o, n, ks, v, places);
    SumCount(NewFieldParts(o, n), v, places, FieldPlaces(mode, o, n, ks, v));
  }

  lemma NewPartCount(mode: Mode, o: Message, n: Message, k: int, v: Violation)
    requires k in n.fields
    ensures NewFieldPart(o, n, k)[v] == if k in o.fields then 0 else |AspectPlaces(mode, o, n, k, v)|
  {
    hide FieldSays, AspectPlaces;
    if k !in o.fields {
      NewFieldCount(mode, o, n, k, v);
    }
  }

  lemma FieldCount(mode: Mode, o: Message, n: Message, v: Violation)
    requires !FieldsPanic(o, n)
    ensures FieldReport(mode, o, n)[v] == |FieldPlaces(mode, o, n, o.fields.Keys + n.fields.Keys, v)|
  {
    hide Sum, FieldSays, OldFieldParts, NewFieldParts, FieldPlaces;
    OldFieldsCount(mode, o, n, v);
    NewFieldsCount(mode, o, n, v);
    var a, b := FieldPlaces(mode, o, n, o.fields.Keys, v), FieldPlaces(mode, o, n, n.fields.Keys - o.fields.Keys, v);
    UnionSize(FieldPlaces(mode, o, n, o.fields.Keys + n.fields.Keys, v), a, b);
  }

  // ---- messages

  function Under(k: string, p: FieldPlace): FieldPlace {
    p.(path := [k] + p.path)
  }

  function Inside(p: FieldPlace): FieldPlace
    requires p.path != []
  {
    p.(path := p.path[1..])
  }

  /** The same places seen from one level further out. */
  function UnderAll(k: string, ps: set<FieldPlace>): (qs: set<FieldPlace>)
    ensures forall q :: q in qs <==> q.path != [] && q.path[0] == k && Inside(q) in ps
  {
    assert forall q: FieldPlace | q.path != [] && q.path[0] == k :: Under(k, Inside(q)) == q;
    assert forall p: FieldPlace :: Inside(Under(k, p)) == p;
    set p | p in ps :: Under(k, p)
  }

  lemma UnderAllSize(k: string, ps: set<FieldPlace>)
    ensures |UnderAll(k, ps)| == |ps|
  {
    forall q ensures q in UnderAll(k, ps) <==> exists p :: p in ps && Under(k, p) == q {
      if q in UnderAll(k, ps) {
        assert Under(k, Inside(q)) == q;
      }
      if p :| p in ps && Under(k, p) == q {
        assert Inside(q) == p;
      }
    }
    forall p, q | p in ps && q in ps && Under(k, p) == Under(k, q) ensures p == q {
      assert Inside(Under(k, p)) == p && Inside(Under(k, q)) == q;
    }
    hide Under, UnderAll;
    ImageSize(ps, (p: FieldPlace) => Under(k, p), UnderAll(k, ps));
  }

  ghost function MessagePlaces(mode: Mode, o: Message, n: Message, v: Violation): set<FieldPlace>
    decreases o, 1
  {
    FieldPlaces(mode, o, n, o.fields.Keys + n.fields.Keys, v) + NestedPlaces(mode, o, n, v)
  }

  ghost function NestedPlaces(mode: Mode, o: Message, n: Message, v: Violation): set<FieldPlace>
    decreases o, 0
  {
    set k, p | k in o.nested && k in n.nested && p in UnderAll(k, MessagePlaces(mode, o.nested[k], n.nested[k], v)) :: p
  }

  lemma NestedPlacesAre(mode: Mode, o: Message, n: Message, v: Violation)
    ensures forall p :: p in NestedPlaces(mode, o, n, v)
                   <==> p.path != [] && p.path[0] in o.nested && p.path[0] in n.nested
                        && Inside(p) in MessagePlaces(mode, o.nested[p.path[0]], n.nested[p.path[0]], v)
  {
    hide MessagePlaces, UnderAll;
    forall p: FieldPlace | p.path != [] && p.path[0] in o.nested && p.path[0] in n.nested
                           && Inside(p) in MessagePlaces(mode, o.nested[p.path[0]], n.nested[p.path[0]], v)
      ensures p in NestedPlaces(mode, o, n, v)
    {
      var k := p.path[0];
      assert p in UnderAll(k, MessagePlaces(mode, o.nested[k], n.nested[k], v));
    }
  }

  lemma {:induction false} MessagePlacesAre(mode: Mode, o: Message, n: Message, v: Violation, p: FieldPlace)
    ensures p in MessagePlaces(mode, o, n, v) <==> MessageSays(mode, o, n, p, v)
    decreases o
  {
    hide FieldSays, FieldPlaces, NestedPlaces;
    NestedPlacesAre(mode, o, n, v);
    if p.path == [] {
      FieldNumberKnown(mode, o, n, p, v);
    } else if p.path[0] in o.nested && p.path[0] in n.nested {
      MessagePlacesAre(mode, o.nested[p.path[0]], n.nested[p.path[0]], v, Inside(p));
    }
  }

  lemma FieldNumberKnown(mode: Mode, o: Message, n: Message, p: FieldPlace, v: Violation)
    ensures FieldSays(mode, o, n, p.number, p.aspect, v) ==> p.number in o.fields.Keys + n.fields.Keys
  {
  }

  lemma {:induction false} MessageCount(mode: Mode, o: Message, n: Message, v: Violation)
    requires !MessagePanics(o, n)
    ensures MessageReport(mode, o, n)[v] == |MessagePlaces(mode, o, n, v)|
    decreases o, 2
  {
    hide FieldReport, FieldPlaces, NestedPlaces, NestedParts, Sum, FieldsPanic;
    FieldCount(mode, o, n, v);
    NestedCount(mode, o, n, v);
    NestedPlacesAre(mode, o, n, v);
    DisjointSize(FieldPlaces(mode, o, n, o.fields.Keys + n.fields.Keys, v), NestedPlaces(mode, o, n, v));
  }

  lemma NestedPartIs(mode: Mode, o: Message, n: Message)
    ensures NestedParts(mode, o, n).Keys == o.nested.Keys
    ensures forall k | k in o.nested ::
              NestedParts(mode, o, n)[k]
              == if k in n.nested then MessageReport(mode, o.nested[k], n.nested[k]) else multiset{}
  {
    hide MessageReport;
  }

  ghost function NestedAt(mode: Mode, o: Message, n: Message, v: Violation, k: string): set<FieldPlace>
    requires k in o.nested
  {
    if k in n.nested then UnderAll(k, MessagePlaces(mode, o.nested[k], n.nested[k], v)) else {}
  }

  ghost function NestedByName(mode: Mode, o: Message, n: Message, v: Violation): (places: map<string, set<FieldPlace>>)
    ensures places.Keys == o.nested.Keys && forall k | k in places :: places[k] == NestedAt(mode, o, n, v, k)
  {
    hide NestedAt;
    map k | k in o.nested :: NestedAt(mode, o, n, v, k)
  }

  lemma {:induction false} NestedCountAt(mode: Mode, o: Message, n: Message, v: Violation, k: string)
    requires !NestedPanics(o, n) && k in o.nested
    ensures NestedParts(mode, o, n)[k][v] == |NestedAt(mode, o, n, v, k)|
    decreases o, 0
  {
    hide MessageReport, MessagePlaces, UnderAll, NestedParts, FieldsPanic;
    NestedPartIs(mode, o, n);
    if k in n.nested {
      MessageCount(mode, o.nested[k], n.nested[k], v);
      UnderAllSize(k, MessagePlaces(mode, o.nested[k], n.nested[k], v));
    }
  }

  lemma {:induction false} NestedCount(mode: Mode, o: Message, n: Message, v: Violation)
    requires !NestedPanics(o, n)
    ensures Sum(NestedParts(mode, o, n))[v] == |NestedPlaces(mode, o, n, v)|
    decreases o, 1
  {
    hide NestedAt, NestedPlaces, NestedPanics, Sum, NestedParts, Partition;
    var places := NestedByName(mode, o, n, v);
    hide NestedByName;
    NestedPartIs(mode, o, n);
    forall k | k in o.nested ensures NestedParts(mode, o, n)[k][v] == |places[k]| {
      NestedCountAt(mode, o, n, v, k);
    }
    NestedPartition(mode, o, n, v, places);
    SumCount(NestedParts(mode, o, n), v, places, NestedPlaces(mode, o, n, v));
  }

  lemma NestedPartition(mode: Mode, o: Message, n: Message, v: Violation, places: map<string, set<FieldPlace>>)
    requires places.Keys == o.nested.Keys && forall k | k in o.nested :: places[k] == NestedAt(mode, o, n, v, k)
    ensures Partition(places, NestedPlaces(mode, o, n, v))
  {
    hide MessagePlaces, NestedPlaces, UnderAll, Inside;
    NestedPlacesAre(mode, o, n, v);
    var all := NestedPlaces(mode, o, n, v);
    forall t ensures t in all <==> InSome(places, t) {
      if t in all {
        InSomeAt(places, t.path[0], t);
      }
    }
    forall j, k, t | j in places && k in places && t in places[j] && t in places[k] ensures j == k {
      assert t.path[0] == j == k;
    }
  }

  // ---- enums

  /** Parts that hold v once, at the keys in said, or not at all. */
  lemma SingleCount<K(!new)>(parts: map<K, Bag>, v: Violation, said: set<K>)
    requires said <= parts.Keys && forall k | k in parts :: parts[k][v] == if k in said then 1 else 0
    ensures Sum(parts)[v] == |said|
  {
    var places := map k | k in parts :: if k in said then {k} else {};
    forall t ensures t in said <==> InSome(places, t) {
      if t in said {
        InSomeAt(places, t, t);
      }
    }
    SumCount(parts, v, places, said);
  }

  ghost function NumbersSaid(mode: Mode, o: EnumSchema, n: EnumSchema, ks: set<int>, v: Violation): (said: set<int>)
    ensures forall k :: k in said <==> k in ks && EnumSays(mode, o, n, AtNumber(k), v)
  {
    set k | k in ks && EnumSays(mode, o, n, AtNumber(k), v)
  }

  ghost function NamesSaid(mode: Mode, o: EnumSchema, n: EnumSchema, v: Violation): set<string> {
    set k | k in o.valuesByName && EnumSays(mode, o, n, AtName(k), v)
  }

  lemma RemovedValuesCount(mode: Mode, o: EnumSchema, n: EnumSchema, v: Violation)
    ensures Sum(OldValueParts(mode, o, n))[v] == |NumbersSaid(mode, o, n, o.values.Keys - n.values.Keys, v)|
  {
    hide Sum;
    SingleCount(OldValueParts(mode, o, n), v, NumbersSaid(mode, o, n, o.values.Keys - n.values.Keys, v));
  }

  lemma AddedValuesCount(mode: Mode, o: EnumSchema, n: EnumSchema, v: Violation)
    ensures Sum(NewValueParts(o, n))[v] == |NumbersSaid(mode, o, n, n.values.Keys - o.values.Keys, v)|
  {
    hide Sum;
    SingleCount(NewValueParts(o, n), v, NumbersSaid(mode, o, n, n.values.Keys - o.values.Keys, v));
  }

  lemma RenumberedCount(mode: Mode, o: EnumSchema, n: EnumSchema, v: Violation)
    ensures Sum(RenumberedParts(o, n))[v] == |NamesSaid(mode, o, n, v)|
  {
    hide Sum, Decimal;
    SingleCount(RenumberedParts(o, n), v, NamesSaid(mode, o, n, v));
  }

  function NumberPlaces(ks: set<int>): (ps: set<EnumPlace>)
    ensures forall p :: p in ps <==> p.AtNumber? && p.number in ks
  {
    set k | k in ks :: AtNumber(k)
  }

  function NamePlaces(ks: set<string>): (ps: set<EnumPlace>)
    ensures forall p :: p in ps <==> p.AtName? && p.name in ks
  {
    set k | k in ks :: AtName(k)
  }

  lemma EnumPlaceKnown(mode: Mode, o: EnumSchema, n: EnumSchema, p: EnumPlace, v: Violation)
    requires EnumSays(mode, o, n, p, v)
    ensures if p.AtNumber? then p.number in o.values.Keys + n.values.Keys else p.name in o.valuesByName
  {
  }

  ghost function EnumPlaces(mode: Mode, o: EnumSchema, n: EnumSchema, v: Violation): (ps: set<EnumPlace>)
    ensures forall p :: p in ps <==> EnumSays(mode, o, n, p, v)
  {
    hide EnumSays, NumbersSaid, NumberPlaces, NamePlaces;
    var numbers, names := NumbersSaid(mode, o, n, o.values.Keys + n.values.Keys, v), NamesSaid(mode, o, n, v);
    assert forall p | EnumSays(mode, o, n, p, v) :: if p.AtNumber? then p.number in numbers else p.name in names by {
      forall p | EnumSays(mode, o, n, p, v) ensures if p.AtNumber? then p.number in numbers else p.name in names {
        EnumPlaceKnown(mode, o, n, p, v);
      }
    }
    NumberPlaces(numbers) + NamePlaces(names)
  }

  lemma EnumCount(mode: Mode, o: EnumSchema, n: EnumSchema, v: Violation)
    ensures EnumReport(mode, o, n)[v] == |EnumPlaces(mode, o, n, v)|
  {
    hide Sum, EnumPlaces, NumbersSaid, NamesSaid, OldValueParts, NewValueParts, RenumberedParts;
    RemovedValuesCount(mode, o, n, v);
    AddedValuesCount(mode, o, n, v);
    RenumberedCount(mode, o, n, v);
    NumbersSplit(mode, o, n, v);
    EnumPlacesSize(mode, o, n, v);
  }

  lemma NumbersSplit(mode: Mode, o: EnumSchema, n: EnumSchema, v: Violation)
    ensures |NumbersSaid(mode, o, n, o.values.Keys + n.values.Keys, v)|
         == |NumbersSaid(mode, o, n, o.values.Keys - n.values.Keys, v)|
            + |NumbersSaid(mode, o, n, n.values.Keys - o.values.Keys, v)|
  {
    assert forall k | k in o.values && k in n.values :: !EnumSays(mode, o, n, AtNumber(k), v);
    hide EnumSays, NumbersSaid;
    var removed, added := NumbersSaid(mode, o, n, o.values.Keys - n.values.Keys, v),
                          NumbersSaid(mode, o, n, n.values.Keys - o.values.Keys, v);
    UnionSize(NumbersSaid(mode, o, n, o.values.Keys + n.values.Keys, v), removed, added);
  }

  lemma EnumPlacesSize(mode: Mode, o: EnumSchema, n: EnumSchema, v: Violation)
    ensures |EnumPlaces(mode, o, n, v)|
         == |NumbersSaid(mode, o, n, o.values.Keys + n.values.Keys, v)| + |NamesSaid(mode, o, n, v)|
  {
    hide NumbersSaid, NamesSaid;
    var numbers, names := NumbersSaid(mode, o, n, o.values.Keys + n.values.Keys, v), NamesSaid(mode, o, n, v);
    ImageSize(numbers, (k: int) => AtNumber(k), NumberPlaces(numbers));
    ImageSize(names, (k: string) => AtName(k), NamePlaces(names));
    UnionSize(EnumPlaces(mode, o, n, v), NumberPlaces(numbers), NamePlaces(names));
  }

  // ---- services

  lemma OneRpcAspect(o: Service, n: Service, k: string, v: Violation, x: RpcAspect, y: RpcAspect)
    requires RpcSays(o, n, RpcPlace(k, x), v) && RpcSays(o, n, RpcPlace(k, y), v)
    ensures x == y
  {
  }

  ghost predicate RpcSaid(o: Service, n: Service, k: string, v: Violation) {
    exists x :: RpcSays(o, n, RpcPlace(k, x), v)
  }

  ghost function RpcAt(o: Service, n: Service, k: string, v: Violation): (ps: set<RpcPlace>)
    ensures forall p :: p in ps <==> p.name == k && RpcSays(o, n, p, v)
    ensures |ps| == if RpcSaid(o, n, k, v) then 1 else 0
  {
    hide RpcSays;
    assert forall p: RpcPlace | p.name == k :: p == RpcPlace(k, p.aspect);
    if RpcSaid(o, n, k, v) then
      var x :| RpcSays(o, n, RpcPlace(k, x), v);
      assert forall y | RpcSays(o, n, RpcPlace(k, y), v) :: y == x by {
        forall y | RpcSays(o, n, RpcPlace(k, y), v) ensures y == x {
          OneRpcAspect(o, n, k, v, x, y);
        }
      }
      {RpcPlace(k, x)}
    else {}
  }

  lemma MethodChangesSay(o: Service, n: Service, k: string, v: Violation)
    requires k in o.methods && k in n.methods
    ensures var x, y, location := o.methods[k], n.methods[k], At(o.fullName, o.methods[k].name);
            && (v in InputChange(location, x, y) <==> RpcSays(o, n, RpcPlace(k, RpcInput), v))
            && (v in OutputChange(location, x, y) <==> RpcSays(o, n, RpcPlace(k, RpcOutput), v))
            && (v in ClientChange(location, x, y) <==> RpcSays(o, n, RpcPlace(k, RpcClient), v))
            && (v in ServerChange(location, x, y) <==> RpcSays(o, n, RpcPlace(k, RpcServer), v))
            && !RpcSays(o, n, RpcPlace(k, RpcPresence), v)
  {
  }

  lemma MethodChangesCount(o: Service, n: Service, k: string, v: Violation)
    requires k in o.methods && k in n.methods
    ensures multiset(MethodChanges(o.fullName, o.methods[k], n.methods[k]))[v] == |RpcAt(o, n, k, v)|
  {
    var x, y, location := o.methods[k], n.methods[k], At(o.fullName, o.methods[k].name);
    FourParts(InputChange(location, x, y), OutputChange(location, x, y), ClientChange(location, x, y),
              ServerChange(location, x, y), v);
    MethodChangesSay(o, n, k, v);
    hide InputChange, OutputChange, ClientChange, ServerChange, RpcSays, RpcAt;
    if RpcSaid(o, n, k, v) {
      var x :| RpcSays(o, n, RpcPlace(k, x), v);
      forall y | RpcSays(o, n, RpcPlace(k, y), v) ensures y == x {
        OneRpcAspect(o, n, k, v, x, y);
      }
    }
  }

  lemma RpcPresenceOnly(o: Service, n: Service, k: string, v: Violation)
    requires !(k in o.methods && k in n.methods)
    ensures RpcSaid(o, n, k, v) <==> RpcSays(o, n, RpcPlace(k, RpcPresence), v)
  {
  }

  lemma OldMethodCount(o: Service, n: Service, k: string, v: Violation)
    requires k in o.methods
    ensures OldMethodParts(o, n).Keys == o.methods.Keys && OldMethodParts(o, n)[k][v] == |RpcAt(o, n, k, v)|
  {
    hide RpcAt, MethodChanges;
    if k in n.methods {
      MethodChangesCount(o, n, k, v);
    } else {
      RpcPresenceOnly(o, n, k, v);
    }
  }

  lemma NewMethodCount(o: Service, n: Service, k: string, v: Violation)
    requires k in n.methods
    ensures NewMethodParts(o, n).Keys == n.methods.Keys
    ensures NewMethodParts(o, n)[k][v] == if k in o.methods then 0 else |RpcAt(o, n, k, v)|
  {
    hide RpcAt;
    if k !in o.methods {
      RpcPresenceOnly(o, n, k, v);
    }
  }

  ghost function RpcsIn(o: Service, n: Service, ks: set<string>, v: Violation): (ps: set<RpcPlace>)
    ensures forall p :: p in ps <==> p.name in ks && RpcSays(o, n, p, v)
  {
    hide RpcSays, RpcAt;
    assert forall p: RpcPlace | RpcSays(o, n, p, v) :: p in RpcAt(o, n, p.name, v);
    set k, p | k in ks && p in RpcAt(o, n, k, v) :: p
  }

  lemma RpcPartition(o: Service, n: Service, ks: set<string>, v: Violation, places: map<string, set<RpcPlace>>)
    requires ks <= places.Keys
    requires forall k | k in places :: places[k] == if k in ks then RpcAt(o, n, k, v) else {}
    ensures Partition(places, RpcsIn(o, n, ks, v))
  {
    hide RpcSays, RpcAt, RpcsIn;
    var all := RpcsIn(o, n, ks, v);
    forall t ensures t in all <==> InSome(places, t) {
      if t in all {
        assert t in RpcAt(o, n, t.name, v);
        InSomeAt(places, t.name, t);
      }
      if InSome(places, t) {
        var k := SomeKey(places, t);
        assert k in ks && t in RpcAt(o, n, k, v);
      }
    }
    forall j, k, t | j in places && k in places && t in places[j] && t in places[k] ensures j == k {
      assert t.name == j == k;
    }
  }

  lemma MethodKeys(o: Service, n: Service)
    ensures OldMethodParts(o, n).Keys == o.methods.Keys && NewMethodParts(o, n).Keys == n.methods.Keys
  {
    hide MethodChanges;
  }

  lemma OldMethodsCount(o: Service, n: Service, v: Violation)
    ensures Sum(OldMethodParts(o, n))[v] == |RpcsIn(o, n, o.methods.Keys, v)|
  {
    hide RpcSays, RpcAt, RpcsIn, Sum, OldMethodParts, Partition, RpcSaid;
    var places := map k | k in o.methods :: RpcAt(o, n, k, v);
    MethodKeys(o, n);
    forall k | k in o.methods ensures OldMethodParts(o, n)[k][v] == |places[k]| {
      OldMethodCount(o, n, k, v);
    }
    RpcPartition(o, n, o.methods.Keys, v, places);
    SumCount(OldMethodParts(o, n), v, places, RpcsIn(o, n, o.methods.Keys, v));
  }

  lemma NewMethodsCount(o: Service, n: Service, v: Violation)
    ensures Sum(NewMethodParts(o, n))[v] == |RpcsIn(o, n, n.methods.Keys - o.methods.Keys, v)|
  {
    hide RpcSays, RpcAt, RpcsIn, Sum, NewMethodParts, Partition, RpcSaid;
    var ks := n.methods.Keys - o.methods.Keys;
    var places := map k | k in n.methods :: if k in ks then RpcAt(o, n, k, v) else {};
    MethodKeys(o, n);
    forall k | k in n.methods ensures NewMethodParts(o, n)[k][v] == |places[k]| {
      NewMethodCount(o, n, k, v);
    }
    RpcPartition(o, n, ks, v, places);
    SumCount(NewMethodParts(o, n), v, places, RpcsIn(o, n, ks, v));
  }

  lemma RpcNameKnown(o: Service, n: Service, p: RpcPlace, v: Violation)
    requires RpcSays(o, n, p, v)
    ensures p.name in o.methods.Keys + n.methods.Keys
  {
  }

  ghost function RpcPlaces(o: Service, n: Service, v: Violation): (ps: set<RpcPlace>)
    ensures forall p :: p in ps <==> RpcSays(o, n, p, v)
  {
    hide RpcSays, RpcsIn;
    assert forall p | RpcSays(o, n, p, v) :: p.name in o.methods.Keys + n.methods.Keys by {
      forall p | RpcSays(o, n, p, v) ensures p.name in o.methods.Keys + n.methods.Keys {
        RpcNameKnown(o, n, p, v);
      }
    }
    RpcsIn(o, n, o.methods.Keys + n.methods.Keys, v)
  }

  lemma ServiceCount(o: Service, n: Service, v: Violation)
    ensures ServiceReport(o, n)[v] == |RpcPlaces(o, n, v)|
  {
    hide Sum, RpcSays, OldMethodParts, NewMethodParts, RpcsIn;
    OldMethodsCount(o, n, v);
    NewMethodsCount(o, n, v);
    var a, b := RpcsIn(o, n, o.methods.Keys, v), RpcsIn(o, n, n.methods.Keys - o.methods.Keys, v);
    UnionSize(RpcsIn(o, n, o.methods.Keys + n.methods.Keys, v), a, b);
  }

  // ---- whole schemas

  /** The part of the report to which a place belongs. */
  datatype Home = Whole | InMessage(name: string) | InEnum(name: string) | InService(name: string)

  function HomeOf(p: Place): Home {
    match p
    case OfPackage => Whole
    case OfMessage(k) => InMessage(k)
    case OfField(f) => if f.path == [] then Whole else InMessage(f.path[0])
    case OfEnum(k) => InEnum(k)
    case OfEnumValue(k, _) => InEnum(k)
    case OfService(k) => InService(k)
    case OfRpc(k, _) => InService(k)
  }

  ghost function Single(mode: Mode, a: SchemaGraph, b: SchemaGraph, v: Violation, p: Place): (ps: set<Place>)
    ensures forall q :: q in ps <==> q == p && Says(mode, a, b, q, v)
    ensures |ps| == if Says(mode, a, b, p, v) then 1 else 0
  {
    if Says(mode, a, b, p, v) then {p} else {}
  }

  function FieldsOf(fs: set<FieldPlace>): (ps: set<Place>)
    ensures forall p :: p in ps <==> p.OfField? && p.field in fs
    ensures |ps| == |fs|
  {
    var ps := set f | f in fs :: OfField(f);
    ImageSize(fs, (f: FieldPlace) => OfField(f), ps);
    ps
  }

  function ValuesOf(k: string, vs: set<EnumPlace>): (ps: set<Place>)
    ensures forall p :: p in ps <==> p.OfEnumValue? && p.name == k && p.value in vs
    ensures |ps| == |vs|
  {
    var ps := set x | x in vs :: OfEnumValue(k, x);
    ImageSize(vs, (x: EnumPlace) => OfEnumValue(k, x), ps);
    ps
  }

  function RpcsOf(k: string, rs: set<RpcPlace>): (ps: set<Place>)
    ensures forall p :: p in ps <==> p.OfRpc? && p.name == k && p.rpc in rs
    ensures |ps| == |rs|
  {
    var ps := set x | x in rs :: OfRpc(k, x);
    ImageSize(rs, (x: RpcPlace) => OfRpc(k, x), ps);
    ps
  }

  ghost function PlacesAt(mode: Mode, a: SchemaGraph, b: SchemaGraph, v: Violation, h: Home): set<Place> {
    match h
    case Whole => Single(mode, a, b, v, OfPackage)
    case InMessage(k) =>
      if k in a.messages && k in b.messages
      then FieldsOf(UnderAll(k, MessagePlaces(mode, a.messages[k], b.messages[k], v)))
      else Single(mode, a, b, v, OfMessage(k))
    case InEnum(k) =>
      if k in a.enums && k in b.enums then ValuesOf(k, EnumPlaces(mode, a.enums[k], b.enums[k], v))
      else Single(mode, a, b, v, OfEnum(k))
    case InService(k) =>
      if k in a.services && k in b.services then RpcsOf(k, RpcPlaces(a.services[k], b.services[k], v))
      else Single(mode, a, b, v, OfService(k))
  }

  lemma PlacesAtAre(mode: Mode, a: SchemaGraph, b: SchemaGraph, v: Violation, h: Home, p: Place)
    ensures p in PlacesAt(mode, a, b, v, h) <==> HomeOf(p) == h && Says(mode, a, b, p, v)
  {
    hide MessagePlaces, EnumPlaces, RpcPlaces, FieldsOf, ValuesOf, RpcsOf, Single, UnderAll;
    hide MessageSays, EnumSays, RpcSays;
    match h {
      case InMessage(k) => MessagePlacesAtAre(mode, a, b, v, k, p);
      case _ =>
    }
  }

  lemma MessagePlacesAtAre(mode: Mode, a: SchemaGraph, b: SchemaGraph, v: Violation, k: string, p: Place)
    ensures p in PlacesAt(mode, a, b, v, InMessage(k)) <==> HomeOf(p) == InMessage(k) && Says(mode, a, b, p, v)
  {
    hide MessagePlaces, FieldsOf, Single, UnderAll, MessageSays, Says;
    if p.OfField? {
      FieldsSaidBelow(mode, a, b, v, p);
    }
    if k in a.messages && k in b.messages {
      BothSaidBelow(mode, a, b, v, k);
      if p.OfField? && p.field.path != [] && p.field.path[0] == k {
        MessagePlacesAre(mode, a.messages[k], b.messages[k], v, Inside(p.field));
      }
    }
  }

  lemma FieldsSaidBelow(mode: Mode, a: SchemaGraph, b: SchemaGraph, v: Violation, p: Place)
    requires p.OfField?
    ensures Says(mode, a, b, p, v)
       <==> p.field.path != [] && p.field.path[0] in a.messages && p.field.path[0] in b.messages
            && MessageSays(mode, a.messages[p.field.path[0]], b.messages[p.field.path[0]], Inside(p.field), v)
  {
    hide MessageSays;
  }

  lemma BothSaidBelow(mode: Mode, a: SchemaGraph, b: SchemaGraph, v: Violation, k: string)
    requires k in a.messages && k in b.messages
    ensures !Says(mode, a, b, OfMessage(k), v)
  {
  }

  ghost function PlacesIn(mode: Mode, a: SchemaGraph, b: SchemaGraph, v: Violation, homes: set<Home>): (ps: set<Place>)
    ensures forall p :: p in ps <==> HomeOf(p) in homes && Says(mode, a, b, p, v)
  {
    hide PlacesAt, Says, HomeOf;
    assert forall h, p :: p in PlacesAt(mode, a, b, v, h) <==> HomeOf(p) == h && Says(mode, a, b, p, v) by {
      forall h, p ensures p in PlacesAt(mode, a, b, v, h) <==> HomeOf(p) == h && Says(mode, a, b, p, v) {
        PlacesAtAre(mode, a, b, v, h, p);
      }
    }
    assert forall p | Says(mode, a, b, p, v) :: p in PlacesAt(mode, a, b, v, HomeOf(p));
    set h, p | h in homes && p in PlacesAt(mode, a, b, v, h) :: p
  }

  /** The sum over one kind of parts. */
  lemma GroupCount(mode: Mode, a: SchemaGraph, b: SchemaGraph, v: Violation, parts: map<string, Bag>,
                   ks: set<string>, f: string -> Home, homes: set<Home>)
    requires ks <= parts.Keys && forall j, k | f(j) == f(k) :: j == k
    requires forall k | k in parts :: parts[k][v] == if k in ks then |PlacesAt(mode, a, b, v, f(k))| else 0
    requires forall h :: h in homes <==> exists k :: k in ks && f(k) == h
    ensures Sum(parts)[v] == |PlacesIn(mode, a, b, v, homes)|
  {
    hide PlacesAt, PlacesIn, Says, HomeOf, Sum;
    var all := PlacesIn(mode, a, b, v, homes);
    var places := map k | k in parts :: if k in ks then PlacesAt(mode, a, b, v, f(k)) else {};
    forall k, t | k in parts ensures t in places[k] <==> k in ks && HomeOf(t) == f(k) && Says(mode, a, b, t, v) {
      PlacesAtAre(mode, a, b, v, f(k), t);
    }
    GroupPartition(mode, a, b, v, ks, f, homes, places);
    hide Partition;
    SumCount(parts, v, places, all);
  }

  lemma GroupPartition(mode: Mode, a: SchemaGraph, b: SchemaGraph, v: Violation, ks: set<string>, f: string -> Home,
                       homes: set<Home>, places: map<string, set<Place>>)
    requires ks <= places.Keys && forall j, k | f(j) == f(k) :: j == k
    requires forall h :: h in homes <==> exists k :: k in ks && f(k) == h
    requires forall k, t | k in places :: t in places[k] <==> k in ks && HomeOf(t) == f(k) && Says(mode, a, b, t, v)
    ensures Partition(places, PlacesIn(mode, a, b, v, homes))
  {
    hide PlacesIn, Says, HomeOf;
    var all := PlacesIn(mode, a, b, v, homes);
    forall t ensures t in all <==> InSome(places, t) {
      if t in all {
        var k :| k in ks && f(k) == HomeOf(t);
        InSomeAt(places, k, t);
      }
    }
    forall j, k, t | j in places && k in places && t in places[j] && t in places[k] ensures j == k {
      assert f(j) == HomeOf(t) == f(k);
    }
  }

  lemma PlacesJoin(mode: Mode, a: SchemaGraph, b: SchemaGraph, v: Violation, x: set<Home>, y: set<Home>)
    requires x !! y
    ensures |PlacesIn(mode, a, b, v, x + y)| == |PlacesIn(mode, a, b, v, x)| + |PlacesIn(mode, a, b, v, y)|
  {
    hide PlacesIn, Says, HomeOf;
    UnionSize(PlacesIn(mode, a, b, v, x + y), PlacesIn(mode, a, b, v, x), PlacesIn(mode, a, b, v, y));
  }

  function MessageHomes(ks: set<string>): (homes: set<Home>)
    ensures forall h :: h in homes <==> h.InMessage? && h.name in ks
  {
    set k | k in ks :: InMessage(k)
  }

  lemma MessageHomeSize(mode: Mode, a: SchemaGraph, b: SchemaGraph, v: Violation, k: string)
    ensures |PlacesAt(mode, a, b, v, InMessage(k))|
         == if k in a.messages && k in b.messages then |MessagePlaces(mode, a.messages[k], b.messages[k], v)|
            else if Says(mode, a, b, OfMessage(k), v) then 1 else 0
  {
    hide Says, MessagePlaces, UnderAll, FieldsOf, Single;
    if k in a.messages && k in b.messages {
      UnderAllSize(k, MessagePlaces(mode, a.messages[k], b.messages[k], v));
    }
  }

  lemma MessageSaid(mode: Mode, a: SchemaGraph, b: SchemaGraph, v: Violation, k: string)
    ensures k in a.messages && k !in b.messages ==> (Says(mode, a, b, OfMessage(k), v) <==> v == MessageRemoved(k))
    ensures k !in a.messages && k in b.messages ==> (Says(mode, a, b, OfMessage(k), v) <==> v == MessageAdded(k))
  {
  }

  lemma OldMessageAt(mode: Mode, a: SchemaGraph, b: SchemaGraph, v: Violation, k: string)
    requires k in a.messages && !Panics(a, b)
    ensures OldMessageParts(mode, a, b).Keys == a.messages.Keys
    ensures OldMessageParts(mode, a, b)[k][v] == |PlacesAt(mode, a, b, v, InMessage(k))|
  {
    hide MessageReport, MessagePlaces, MessagePanics, Says, PlacesAt;
    MessageKeys(mode, a, b);
    MessageHomeSize(mode, a, b, v, k);
    MessageSaid(mode, a, b, v, k);
    if k in b.messages {
      MessageCount(mode, a.messages[k], b.messages[k], v);
    }
  }

  lemma NewMessageAt(mode: Mode, a: SchemaGraph, b: SchemaGraph, v: Violation, k: string)
    requires k in b.messages
    ensures NewMessageParts(a, b).Keys == b.messages.Keys
    ensures NewMessageParts(a, b)[k][v] == if k in a.messages then 0 else |PlacesAt(mode, a, b, v, InMessage(k))|
  {
    hide Says, PlacesAt;
    MessageHomeSize(mode, a, b, v, k);
    MessageSaid(mode, a, b, v, k);
  }

  lemma OldMessageGroup(mode: Mode, a: SchemaGraph, b: SchemaGraph, v: Violation)
    requires !Panics(a, b)
    ensures Sum(OldMessageParts(mode, a, b))[v] == |PlacesIn(mode, a, b, v, MessageHomes(a.messages.Keys))|
  {
    hide Sum, OldMessageParts, PlacesAt, PlacesIn, MessageHomes, Panics;
    MessageKeys(mode, a, b);
    forall k | k in a.messages ensures OldMessageParts(mode, a, b)[k][v] == |PlacesAt(mode, a, b, v, InMessage(k))| {
      OldMessageAt(mode, a, b, v, k);
    }
    GroupCount(mode, a, b, v, OldMessageParts(mode, a, b), a.messages.Keys, (k: string) => InMessage(k),
               MessageHomes(a.messages.Keys));
  }

  lemma NewMessageGroup(mode: Mode, a: SchemaGraph, b: SchemaGraph, v: Violation)
    ensures Sum(NewMessageParts(a, b))[v] == |PlacesIn(mode, a, b, v, MessageHomes(b.messages.Keys - a.messages.Keys))|
  {
    hide Sum, NewMessageParts, PlacesAt, PlacesIn, MessageHomes;
    MessageKeys(mode, a, b);
    var added := b.messages.Keys - a.messages.Keys;
    forall k | k in b.messages
      ensures NewMessageParts(a, b)[k][v] == if k in added then |PlacesAt(mode, a, b, v, InMessage(k))| else 0
    {
      NewMessageAt(mode, a, b, v, k);
    }
    GroupCount(mode, a, b, v, NewMessageParts(a, b), added, (k: string) => InMessage(k), MessageHomes(added));
  }

  lemma MessageGroup(mode: Mode, a: SchemaGraph, b: SchemaGraph, v: Violation)
    requires !Panics(a, b)
    ensures MessagesReport(mode, a, b)[v] == |PlacesIn(mode, a, b, v, MessageHomes(a.messages.Keys + b.messages.Keys))|
  {
    hide Sum, OldMessageParts, NewMessageParts, PlacesIn, MessageHomes, Panics;
    OldMessageGroup(mode, a, b, v);
    NewMessageGroup(mode, a, b, v);
    var before, added := MessageHomes(a.messages.Keys), MessageHomes(b.messages.Keys - a.messages.Keys);
    PlacesJoin(mode, a, b, v, before, added);
    assert MessageHomes(a.messages.Keys + b.messages.Keys) == before + added;
  }

  lemma MessageKeys(mode: Mode, a: SchemaGraph, b: SchemaGraph)
    ensures OldMessageParts(mode, a, b).Keys == a.messages.Keys && NewMessageParts(a, b).Keys == b.messages.Keys
  {
    hide MessageReport;
  }

  function EnumHomes(ks: set<string>): (homes: set<Home>)
    ensures forall h :: h in homes <==> h.InEnum? && h.name in ks
  {
    set k | k in ks :: InEnum(k)
  }

  lemma EnumHomeSize(mode: Mode, a: SchemaGraph, b: SchemaGraph, v: Violation, k: string)
    ensures |PlacesAt(mode, a, b, v, InEnum(k))|
         == if k in a.enums && k in b.enums then |EnumPlaces(mode, a.enums[k], b.enums[k], v)|
            else if Says(mode, a, b, OfEnum(k), v) then 1 else 0
  {
    hide Says, EnumPlaces, ValuesOf, Single;
  }

  lemma EnumSaid(mode: Mode, a: SchemaGraph, b: SchemaGraph, v: Violation, k: string)
    ensures k in a.enums && k !in b.enums ==> (Says(mode, a, b, OfEnum(k), v) <==> v == EnumRemoved(k))
    ensures k !in a.enums && k in b.enums ==> (Says(mode, a, b, OfEnum(k), v) <==> v == EnumAdded(k))
  {
  }

  lemma OldEnumAt(mode: Mode, a: SchemaGraph, b: SchemaGraph, v: Violation, k: string)
    requires k in a.enums
    ensures OldEnumParts(mode, a, b).Keys == a.enums.Keys
    ensures OldEnumParts(mode, a, b)[k][v] == |PlacesAt(mode, a, b, v, InEnum(k))|
  {
    hide EnumReport, EnumPlaces, Says, PlacesAt;
    EnumKeys(mode, a, b);
    EnumHomeSize(mode, a, b, v, k);
    EnumSaid(mode, a, b, v, k);
    if k in b.enums {
      EnumCount(mode, a.enums[k], b.enums[k], v);
    }
  }

  lemma NewEnumAt(mode: Mode, a: SchemaGraph, b: SchemaGraph, v: Violation, k: string)
    requires k in b.enums
    ensures NewEnumParts(a, b).Keys == b.enums.Keys
    ensures NewEnumParts(a, b)[k][v] == if k in a.enums then 0 else |PlacesAt(mode, a, b, v, InEnum(k))|
  {
    hide Says, PlacesAt;
    EnumHomeSize(mode, a, b, v, k);
    EnumSaid(mode, a, b, v, k);
  }

  lemma OldEnumGroup(mode: Mode, a: SchemaGraph, b: SchemaGraph, v: Violation)
    ensures Sum(OldEnumParts(mode, a, b))[v] == |PlacesIn(mode, a, b, v, EnumHomes(a.enums.Keys))|
  {
    hide Sum, OldEnumParts, PlacesAt, PlacesIn, EnumHomes;
    EnumKeys(mode, a, b);
    forall k | k in a.enums ensures OldEnumParts(mode, a, b)[k][v] == |PlacesAt(mode, a, b, v, InEnum(k))| {
      OldEnumAt(mode, a, b, v, k);
    }
    GroupCount(mode, a, b, v, OldEnumParts(mode, a, b), a.enums.Keys, (k: string) => InEnum(k),
               EnumHomes(a.enums.Keys));
  }

  lemma NewEnumGroup(mode: Mode, a: SchemaGraph, b: SchemaGraph, v: Violation)
    ensures Sum(NewEnumParts(a, b))[v] == |PlacesIn(mode, a, b, v, EnumHomes(b.enums.Keys - a.enums.Keys))|
  {
    hide Sum, NewEnumParts, PlacesAt, PlacesIn, EnumHomes;
    EnumKeys(mode, a, b);
    var added := b.enums.Keys - a.enums.Keys;
    forall k | k in b.enums
      ensures NewEnumParts(a, b)[k][v] == if k in added then |PlacesAt(mode, a, b, v, InEnum(k))| else 0
    {
      NewEnumAt(mode, a, b, v, k);
    }
    GroupCount(mode, a, b, v, NewEnumParts(a, b), added, (k: string) => InEnum(k), EnumHomes(added));
  }

  lemma EnumGroup(mode: Mode, a: SchemaGraph, b: SchemaGraph, v: Violation)
    ensures EnumsReport(mode, a, b)[v] == |PlacesIn(mode, a, b, v, EnumHomes(a.enums.Keys + b.enums.Keys))|
  {
    hide Sum, OldEnumParts, NewEnumParts, PlacesIn, EnumHomes;
    OldEnumGroup(mode, a, b, v);
    NewEnumGroup(mode, a, b, v);
    var before, added := EnumHomes(a.enums.Keys), EnumHomes(b.enums.Keys - a.enums.Keys);
    PlacesJoin(mode, a, b, v, before, added);
    assert EnumHomes(a.enums.Keys + b.enums.Keys) == before + added;
  }

  lemma EnumKeys(mode: Mode, a: SchemaGraph, b: SchemaGraph)
    ensures OldEnumParts(mode, a, b).Keys == a.enums.Keys && NewEnumParts(a, b).Keys == b.enums.Keys
  {
    hide EnumReport;
  }

  function ServiceHomes(ks: set<string>): (homes: set<Home>)
    ensures forall h :: h in homes <==> h.InService? && h.name in ks
  {
    set k | k in ks :: InService(k)
  }

  lemma ServiceHomeSize(mode: Mode, a: SchemaGraph, b: SchemaGraph, v: Violation, k: string)
    ensures |PlacesAt(mode, a, b, v, InService(k))|
         == if k in a.services && k in b.services then |RpcPlaces(a.services[k], b.services[k], v)|
            else if Says(mode, a, b, OfService(k), v) then 1 else 0
  {
    hide Says, RpcPlaces, RpcsOf, Single;
  }

  lemma ServiceSaid(mode: Mode, a: SchemaGraph, b: SchemaGraph, v: Violation, k: string)
    ensures k in a.services && k !in b.services ==> (Says(mode, a, b, OfService(k), v) <==> v == ServiceRemoved(k))
    ensures k !in a.services && k in b.services ==> (Says(mode, a, b, OfService(k), v) <==> v == ServiceAdded(k))
  {
  }

  lemma OldServiceAt(mode: Mode, a: SchemaGraph, b: SchemaGraph, v: Violation, k: string)
    requires k in a.services
    ensures OldServiceParts(a, b).Keys == a.services.Keys
    ensures OldServiceParts(a, b)[k][v] == |PlacesAt(mode, a, b, v, InService(k))|
  {
    hide ServiceReport, RpcPlaces, Says, PlacesAt;
    ServiceKeys(a, b);
    ServiceHomeSize(mode, a, b, v, k);
    ServiceSaid(mode, a, b, v, k);
    if k in b.services {
      ServiceCount(a.services[k], b.services[k], v);
    }
  }

  lemma NewServiceAt(mode: Mode, a: SchemaGraph, b: SchemaGraph, v: Violation, k: string)
    requires k in b.services
    ensures NewServiceParts(a, b).Keys == b.services.Keys
    ensures NewServiceParts(a, b)[k][v] == if k in a.services then 0 else |PlacesAt(mode, a, b, v, InService(k))|
  {
    hide Says, PlacesAt;
    ServiceHomeSize(mode, a, b, v, k);
    ServiceSaid(mode, a, b, v, k);
  }

  lemma OldServiceGroup(mode: Mode, a: SchemaGraph, b: SchemaGraph, v: Violation)
    ensures Sum(OldServiceParts(a, b))[v] == |PlacesIn(mode, a, b, v, ServiceHomes(a.services.Keys))|
  {
    hide Sum, OldServiceParts, PlacesAt, PlacesIn, ServiceHomes;
    ServiceKeys(a, b);
    forall k | k in a.services ensures OldServiceParts(a, b)[k][v] == |PlacesAt(mode, a, b, v, InService(k))| {
      OldServiceAt(mode, a, b, v, k);
    }
    GroupCount(mode, a, b, v, OldServiceParts(a, b), a.services.Keys, (k: string) => InService(k),
               ServiceHomes(a.services.Keys));
  }

  lemma NewServiceGroup(mode: Mode, a: SchemaGraph, b: SchemaGraph, v: Violation)
    ensures Sum(NewServiceParts(a, b))[v] == |PlacesIn(mode, a, b, v, ServiceHomes(b.services.Keys - a.services.Keys))|
  {
    hide Sum, NewServiceParts, PlacesAt, PlacesIn, ServiceHomes;
    ServiceKeys(a, b);
    var added := b.services.Keys - a.services.Keys;
    forall k | k in b.services
      ensures NewServiceParts(a, b)[k][v] == if k in added then |PlacesAt(mode, a, b, v, InService(k))| else 0
    {
      NewServiceAt(mode, a, b, v, k);
    }
    GroupCount(mode, a, b, v, NewServiceParts(a, b), added, (k: string) => InService(k), ServiceHomes(added));
  }

  lemma ServiceGroup(mode: Mode, a: SchemaGraph, b: SchemaGraph, v: Violation)
    ensures ServicesReport(a, b)[v] == |PlacesIn(mode, a, b, v, ServiceHomes(a.services.Keys + b.services.Keys))|
  {
    hide Sum, OldServiceParts, NewServiceParts, PlacesIn, ServiceHomes;
    OldServiceGroup(mode, a, b, v);
    NewServiceGroup(mode, a, b, v);
    var before, added := ServiceHomes(a.services.Keys), ServiceHomes(b.services.Keys - a.services.Keys);
    PlacesJoin(mode, a, b, v, before, added);
    assert ServiceHomes(a.services.Keys + b.services.Keys) == before + added;
  }

  lemma ServiceKeys(a: SchemaGraph, b: SchemaGraph)
    ensures OldServiceParts(a, b).Keys == a.services.Keys && NewServiceParts(a, b).Keys == b.services.Keys
  {
    hide ServiceReport;
  }

  lemma PackageGroup(mode: Mode, a: SchemaGraph, b: SchemaGraph, v: Violation)
    ensures PackagePart(a, b)[v] == |PlacesIn(mode, a, b, v, {Whole})|
  {
    var places := PlacesAt(mode, a, b, v, Whole);
    assert |places| == PackagePart(a, b)[v];
    hide PlacesAt, PlacesIn, Says, HomeOf;
    forall p ensures p in places <==> p in PlacesIn(mode, a, b, v, {Whole}) {
      PlacesAtAre(mode, a, b, v, Whole, p);
    }
    assert places == PlacesIn(mode, a, b, v, {Whole});
  }

  function Homes(a: SchemaGraph, b: SchemaGraph): set<Home> {
    {Whole} + MessageHomes(a.messages.Keys + b.messages.Keys) + EnumHomes(a.enums.Keys + b.enums.Keys)
    + ServiceHomes(a.services.Keys + b.services.Keys)
  }

  lemma SaidAtHome(mode: Mode, a: SchemaGraph, b: SchemaGraph, v: Violation, p: Place)
    requires Says(mode, a, b, p, v)
    ensures HomeOf(p) in Homes(a, b)
  {
    hide MessageSays, EnumSays, RpcSays;
  }

  /** Where the comparison does not panic, its report holds each violation as often as there are places
      where the schemas differ in the way that it says, and so no other. */
  lemma ReportSaysWhatChanged(mode: Mode, a: SchemaGraph, b: SchemaGraph, v: Violation)
    requires !Panics(a, b)
    ensures OccursAsSaid(mode, a, b, Report(mode, a, b), v)
  {
    hide MessagesReport, EnumsReport, ServicesReport, PackagePart, PlacesIn, Panics, Says, HomeOf;
    hide MessageHomes, EnumHomes, ServiceHomes;
    PackageGroup(mode, a, b, v);
    MessageGroup(mode, a, b, v);
    EnumGroup(mode, a, b, v);
    ServiceGroup(mode, a, b, v);
    var m, e := MessageHomes(a.messages.Keys + b.messages.Keys), EnumHomes(a.enums.Keys + b.enums.Keys);
    var s := ServiceHomes(a.services.Keys + b.services.Keys);
    PlacesJoin(mode, a, b, v, {Whole}, m);
    PlacesJoin(mode, a, b, v, {Whole} + m, e);
    PlacesJoin(mode, a, b, v, {Whole} + m + e, s);
    var all := PlacesIn(mode, a, b, v, {Whole} + m + e + s);
    assert |all| == Report(mode, a, b)[v];
    forall p ensures p in all <==> Says(mode, a, b, p, v) {
      if Says(mode, a, b, p, v) {
        SaidAtHome(mode, a, b, v, p);
      }
    }
    hide Homes;
    assert AllSaying(all, mode, a, b, v);
  }
}
