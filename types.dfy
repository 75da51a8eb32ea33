/**
 * What the serializer learns about a runtime type by reflection, and the runtime
 * values it walks. Types and values are finite trees; structural equality of
 * descriptors stands for System.Type identity.
 */
module Types {
  import opened XmlEvents

  /**
   * The runtime "is" tests the serializer makes. Boolean, Double, Single, Int32, Byte and
   * String each stand for that one System type; `Object` is any other class or struct.
   */
  datatype Kind = Boolean | Double | Single | Int32 | Byte | String | Enum | Dictionary | Collection | Object

  /** A property or field as GetProperties/GetFields report it for one type (instance members only). */
  datatype MemberInfo =
    | Property(name: string, memberType: TypeDesc, isPublic: bool, hasPublicGetter: bool, hasPublicSetter: bool,
               getterParameters: nat, indexParameters: nat, isDataMember: bool)
    | Field(name: string, memberType: TypeDesc, isPublic: bool, isDataMember: bool)

  /**
   * Reflection facts about one type: Name, Namespace, FullName, the runtime category,
   * GetGenericArguments(), GetElementType(), BaseType, its members, and whether it carries
   * [DataContract] and [DataContract(IsReference = true)].
   */
  datatype TypeDesc = TypeDesc(
    name: string,
    ns: Option<string>,
    fullName: string,
    kind: Kind,
    genericArgs: seq<TypeDesc>,
    elementType: Option<TypeDesc>,
    baseType: Option<TypeDesc>,
    members: seq<MemberInfo>,
    isDataContract: bool,
    isReference: bool)

  /** System.Object. */
  const ObjectType := TypeDesc("Object", Some("System"), "System.Object", Object, [], None, None, [], false, false)

  /**
   * The constructor's table of types with fixed schema names: string, int, bool, float
   * and object. Any other type is not in it.
   */
  function PrimitiveName(t: TypeDesc): (r: Option<string>)
    ensures r.Some? <==> t.kind in {String, Int32, Boolean, Single} || t == ObjectType
  {
    match t.kind
    case String => Some("string")
    case Int32 => Some("int")
    case Boolean => Some("boolean")
    case Single => Some("float")
    case _ => if t == ObjectType then Some("anyType") else None
  }

  /**
   * GetArrayType: the first generic argument, else the array element type. The result is
   * part of the descriptor, so descending to it terminates, and it is missing only when
   * the type has neither.
   */
  function GetArrayType(t: TypeDesc): (r: Option<TypeDesc>)
    ensures r.Some? ==> r.value < t
    ensures r.None? <==> t.genericArgs == [] && t.elementType.None?
    ensures r.Some? ==> r.value in t.genericArgs || t.elementType == r
  {
    if |t.genericArgs| == 0 then t.elementType else Some(t.genericArgs[0])
  }

  /** The type implements the non-generic IDictionary; every such type is also an array. */
  predicate IsDictionary(t: TypeDesc)
    ensures IsDictionary(t) ==> IsArray(t)
  {
    t.kind == Dictionary
  }

  /** The type implements IEnumerable (strings, dictionaries and collections do). */
  predicate IsEnumerable(t: TypeDesc)
  {
    t.kind == String || t.kind == Dictionary || t.kind == Collection
  }

  /** IsArray: enumerable and not System.String, that is, a dictionary or a collection. */
  predicate IsArray(t: TypeDesc)
    ensures IsArray(t) <==> t.kind == Dictionary || t.kind == Collection
  {
    t.kind != String && IsEnumerable(t)
  }

  /** Members declared along the inheritance chain: the type's own, then its base's, and so on. */
  function ChainSize(t: TypeDesc): nat
  {
    |t.members| + match t.baseType case None => 0 case Some(b) => ChainSize(b)
  }

  datatype Value =
    | Null
      /** A bool, number, string or enum; `text` is what XmlConvert, WriteValue or ToString make of it. */
    | Scalar(rt: TypeDesc, text: string)
      /** An IEnumerable that is not a dictionary, with its items in enumeration order. */
    | Items(rt: TypeDesc, items: seq<Value>)
      /** An IDictionary, with its entries in enumeration order. */
    | Entries(rt: TypeDesc, pairs: seq<Pair>)
      /** Any other object: slots hold what GetValue reads for each member along the chain. */
    | Instance(rt: TypeDesc, slots: seq<Value>)

  datatype Pair = Pair(key: Value, value: Value)

  function RuntimeType(v: Value): TypeDesc
    requires v != Null
  {
    v.rt
  }

  function Slots(v: Value): seq<Value>
  {
    if v.Instance? then v.slots else []
  }

  predicate IsScalarKind(k: Kind)
  {
    k == Boolean || k == Double || k == Single || k == Int32 || k == Byte || k == String || k == Enum
  }

  /**
   * The value agrees with its runtime type: the constructor matches the kind, an object
   * has one slot per member on its chain, other values' types declare no members,
   * a scalar is generic over nothing and only an enum can be a data contract, and
   * dictionary keys are never null.
   */
  predicate Typed(v: Value)
  {
    match v
    case Null => true
    case Scalar(rt, _) =>
      IsScalarKind(rt.kind) && rt.genericArgs == [] && rt.elementType == None
      && (rt.isDataContract ==> rt.kind == Enum) && ChainSize(rt) == 0
    case Items(rt, items) =>
      rt.kind == Collection && ChainSize(rt) == 0 && forall x :: x in items ==> Typed(x)
    case Entries(rt, pairs) =>
      rt.kind == Dictionary && ChainSize(rt) == 0
      && forall p :: p in pairs ==> p.key != Null && Typed(p.key) && Typed(p.value)
    case Instance(rt, slots) =>
      rt.kind == Object && ChainSize(rt) == |slots| && forall x :: x in slots ==> Typed(x)
  }

  lemma TypedSlots(v: Value)
    requires Typed(v) && v != Null
    ensures |Slots(v)| == ChainSize(RuntimeType(v))
    ensures forall x :: x in Slots(v) ==> Typed(x)
  {
  }
}
