/**
 * The serializer: one object whose counters, namespace stack and writer change as it walks
 * a value, writing one element per field. A NullReferenceException on the way is the
 * `ok == false` result; the events written before it stay written.
 */
module Serializer {
  import opened XmlEvents
  import opened Types
  import opened TypeNames
  import opened Members

  /** The prefix made up for a namespace the writer has no prefix for: d{depth}p{count}. */
  function GeneratedPrefix(depth: nat, count: nat): string
  {
    "d" + NatToString(depth) + "p" + NatToString(count)
  }

  /** Made-up prefixes differ whenever the depth or the count differs. */
  lemma GeneratedPrefixInjective(d1: nat, c1: nat, d2: nat, c2: nat)
    requires GeneratedPrefix(d1, c1) == GeneratedPrefix(d2, c2)
    ensures d1 == d2 && c1 == c2
  {
    var x1, x2 := NatToString(d1), NatToString(d2);
    var s := GeneratedPrefix(d1, c1);
    // the first 'p' sits right after the shorter number, so the numbers have one length
    var k := if |x1| <= |x2| then |x1| else |x2|;
    assert s[1 + k] == 'p';
    assert |x1| == |x2|;
    assert x1 == s[1..1 + |x1|] == x2;
    NatToStringInjective(d1, d2);
    assert NatToString(c1) == s[2 + |x1|..] == NatToString(c2);
    NatToStringInjective(c1, c2);
  }

  /** The events of one field: a well-formed element named `name` in `ns`, with fresh ids. */
  ghost predicate WroteElement(t0: seq<Event>, id0: nat, t1: seq<Event>, id1: nat, name: string, ns: string)
  {
    Wrote(t0, id0, t1, id1) && IsElement(t1[|t0|..], name, ns)
  }

  /** The events of a member list: one part per member, a nil element or a field element. */
  ghost predicate MemberParts(parts: seq<seq<Event>>, members: seq<Member>, ns: string)
  {
    |parts| == |members| && forall i :: 0 <= i < |parts| ==> MemberPart(parts[i], members[i], ns)
  }

  /** The events of one member: a nil element when its value is null, otherwise its field element. */
  ghost predicate MemberPart(part: seq<Event>, m: Member, ns: string)
  {
    if m.value == Null then part == NilElement(m.name) else IsElement(part, m.name, ns)
  }

  /** Appending the events of member i to the parts of members 0 .. i-1. */
  lemma MemberPartsSnoc(t0: seq<Event>, parts: seq<seq<Event>>, members: seq<Member>, i: nat,
                        t1: seq<Event>, t2: seq<Event>, ns: string)
    requires i < |members| && MemberParts(parts, members[..i], ns) && t1 == t0 + Concat(parts)
    requires t1 <= t2 && MemberPart(t2[|t1|..], members[i], ns)
    ensures MemberParts(parts + [t2[|t1|..]], members[..i + 1], ns)
    ensures t2 == t0 + Concat(parts + [t2[|t1|..]])
  {
    var p := t2[|t1|..];
    ConcatSnoc(parts, p);
    assert t2 == t1 + p;
    var ms, ps := members[..i + 1], parts + [p];
    forall k | 0 <= k < |ps|
      ensures MemberPart(ps[k], ms[k], ns)
    {
      if k < |parts| {
        assert ps[k] == parts[k] && ms[k] == members[..i][k];
      }
    }
  }

  lemma WroteEmptyElement(t: seq<Event>, id: nat, name: string, ns: string)
    ensures Wrote(t, id, t + [StartElement(None, name, Some(ns)), EndElement], id)
  {
    var s := [StartElement(None, name, Some(ns))];
    WroteNothing(t + s, id);
    CloseElement(t, id, t + s, id, name, ns);
    assert t + s + [EndElement] == t + [StartElement(None, name, Some(ns)), EndElement];
  }

  /** `count` empty elements named `name` in `ns`, one after another. */
  function EmptyElements(count: nat, name: string, ns: string): seq<Event>
  {
    if count == 0 then [] else EmptyElements(count - 1, name, ns) + [StartElement(None, name, Some(ns)), EndElement]
  }

  /** Empty elements are balanced and hand out no ids. */
  lemma {:induction false} EmptyElementsWrote(t: seq<Event>, id: nat, count: nat, name: string, ns: string)
    ensures Wrote(t, id, t + EmptyElements(count, name, ns), id)
  {
    if count == 0 {
      WroteNothing(t, id);
      assert t + [] == t;
    } else {
      var e, pair := EmptyElements(count - 1, name, ns), [StartElement(None, name, Some(ns)), EndElement];
      var t1, t2 := t + e, t + EmptyElements(count, name, ns);
      assert Wrote(t, id, t1, id) by {
        EmptyElementsWrote(t, id, count - 1, name, ns);
      }
      assert Wrote(t1, id, t2, id) by {
        WroteEmptyElement(t1, id, name, ns);
        assert t2 == t1 + pair;
      }
      WroteTrans(t, id, t1, id, t2, id);
    }
  }

  function Concat(parts: seq<seq<Event>>): seq<Event>
  {
    if parts == [] then [] else Concat(parts[..|parts| - 1]) + parts[|parts| - 1]
  }

  lemma ConcatSnoc(parts: seq<seq<Event>>, p: seq<Event>)
    ensures Concat(parts + [p]) == Concat(parts) + p
  {
    assert (parts + [p])[..|parts|] == parts;
  }

  /** The namespace stack after a branch of WriteField: one entry more exactly when `namespaced`. */
  ghost predicate Pushed(before: seq<string>, after: seq<string>, namespaced: bool)
  {
    if namespaced then |after| == |before| + 1 && after[..|before|] == before else after == before
  }

  /** The namespace of a data contract value: `ns`, extended by its element type's namespace. */
  function ContractNamespace(v: Value, ns: string): string
    requires v != Null
  {
    var element := GetArrayType(RuntimeType(v));
    if element.Some? && element.value.ns.Some? then ns + element.value.ns.value else ns
  }

  /** The text of a scalar: a string for booleans and enums, a typed value for numbers and strings. */
  function ScalarText(v: Value): Event
    requires v.Scalar?
  {
    if v.rt.kind.Boolean? || v.rt.kind.Enum? then Text(v.text) else TypedText(v.text)
  }

  /** The xsi:type attribute naming `t` as a qualified name in `ns`. */
  function TypeAttribute(t: TypeDesc, ns: string): seq<Event>
  {
    [StartAttribute(Some(XsiPrefix), XsiTypeLocalName, Some(InstanceNamespace)), QualifiedName(GetTypeString(t), ns), EndAttribute]
  }

  /**
   * WriteField takes the data contract branch: the value's type, or its element type when
   * that is not the element type the serializer was made for, carries [DataContract].
   */
  predicate IsContractValue(root: Option<TypeDesc>, v: Value)
  {
    v != Null &&
    var element := GetArrayType(v.rt);
    v.rt.isDataContract || (element.Some? && element != root && element.value.isDataContract)
  }

  /**
   * WriteField of `v` runs to its end: the value is not null, and the branch its runtime
   * type selects meets no null it dereferences and no property it cannot read.
   */
  ghost predicate Writable(root: Option<TypeDesc>, v: Value)
    decreases v, 3
  {
    v != Null &&
    if IsContractValue(root, v) then ContractBodyOk(root, v)
    else if v.Items? || v.Entries? then EnumerableOk(root, v)
    else v.Instance? ==> MembersOk(root, v, false, false)
  }

  /** The contents of a data contract value are written to their end. */
  ghost predicate ContractBodyOk(root: Option<TypeDesc>, v: Value)
    decreases v, 2
  {
    if v.Items? || v.Entries? then ContractItemsOk(root, v)
    else v.Instance? ==> MembersOk(root, v, true, true)
  }

  /** The enumerable branch is written to its end. */
  ghost predicate EnumerableOk(root: Option<TypeDesc>, v: Value)
    decreases v, 2
  {
    (v.Items? || v.Entries?) &&
    var element := GetArrayType(v.rt);
    if element.Some? && element.value.isDataContract then ContractItemsOk(root, v)
    else if v.Entries? then EntriesOk(root, v)
    else ItemsOk(root, v)
  }

  /**
   * WriteDataContractEnumerable runs to its end: there is an element type to name the
   * items after, and every non-null item's data members are written.
   */
  ghost predicate ContractItemsOk(root: Option<TypeDesc>, v: Value)
    decreases v, 1
  {
    (v.Items? || v.Entries?) && GetArrayType(v.rt).Some?
    && (v.Items? ==> forall x :: x in v.items ==> ContractItemOk(root, x))
  }

  /** One item of a data contract collection: null (a nil element), or its data members are written. */
  ghost predicate ContractItemOk(root: Option<TypeDesc>, x: Value)
    decreases x, 1
  {
    x == Null || MembersOk(root, x, true, true)
  }

  /** WriteDictionary runs to its end: no value is null, and every key and value is written. */
  ghost predicate EntriesOk(root: Option<TypeDesc>, v: Value)
    decreases v, 1
  {
    v.Entries? && forall p :: p in v.pairs ==> EntryOk(root, p)
  }

  /** One dictionary entry: its value is not null, and its key and value are written. */
  ghost predicate EntryOk(root: Option<TypeDesc>, p: Pair)
    decreases p, 0
  {
    p.value != Null && Writable(root, p.key) && Writable(root, p.value)
  }

  /**
   * A collection that is not a data contract is written to its end: an empty one always;
   * otherwise it needs an element type, and every item is a field of its own.
   */
  ghost predicate ItemsOk(root: Option<TypeDesc>, v: Value)
    decreases v, 1
  {
    v.Items? && (v.items != [] ==> GetArrayType(v.rt).Some? && forall x :: x in v.items ==> Writable(root, x))
  }

  /**
   * The members of `v` are written to their end: the walk over its type and base types
   * reads every property, and every collected member is null (a nil element) or writable.
   */
  ghost predicate MembersOk(root: Option<TypeDesc>, v: Value, filter: bool, nonPublic: bool)
    decreases v, 0
  {
    v != Null && ChainReadable(v.rt, nonPublic) && |Slots(v)| == ChainSize(v.rt)
    && forall x :: x in Dedup(Candidates(v.rt, Slots(v), filter, nonPublic)) ==>
         x.value == Null || (x.value < v && Writable(root, x.value))
  }

  /** A bool, number, string or enum that is not a data contract is always written. */
  lemma ScalarWritable(root: Option<TypeDesc>, v: Value)
    requires v.Scalar? && !IsContractValue(root, v)
    ensures Writable(root, v)
  {
  }

  /**
   * A null item stops a collection that is neither a data contract nor holds data contracts,
   * while a data contract collection writes it as a nil element.
   */
  lemma NullItem(root: Option<TypeDesc>, v: Value)
    requires v.Items? && Null in v.items
    ensures !IsContractValue(root, v) && !(GetArrayType(v.rt).Some? && GetArrayType(v.rt).value.isDataContract)
            ==> !Writable(root, v)
    ensures IsContractValue(root, v) ==>
      (Writable(root, v) <==> GetArrayType(v.rt).Some? && forall x :: x in v.items && x != Null ==> MembersOk(root, x, true, true))
  {
    if !IsContractValue(root, v) && !(GetArrayType(v.rt).Some? && GetArrayType(v.rt).value.isDataContract) {
      assert !Writable(root, Null);
      assert !ItemsOk(root, v);
    }
    if IsContractValue(root, v) {
      assert Writable(root, v) <==> ContractItemsOk(root, v);
      assert forall x :: x in v.items ==> (ContractItemOk(root, x) <==> x == Null || MembersOk(root, x, true, true));
    }
  }

  /** One collected member: null (a nil element), or written as a field. */
  ghost predicate MemberOk(root: Option<TypeDesc>, m: Member)
  {
    m.value == Null || Writable(root, m.value)
  }

  lemma MemberOkSnoc(root: Option<TypeDesc>, members: seq<Member>, i: nat)
    requires i < |members| && MemberOk(root, members[i])
    requires forall m :: m in members[..i] ==> MemberOk(root, m)
    ensures forall m :: m in members[..i + 1] ==> MemberOk(root, m)
  {
    assert members[..i + 1] == members[..i] + [members[i]];
  }

  lemma EntryOkSnoc(root: Option<TypeDesc>, pairs: seq<Pair>, i: nat)
    requires i < |pairs| && EntryOk(root, pairs[i])
    requires forall p :: p in pairs[..i] ==> EntryOk(root, p)
    ensures forall p :: p in pairs[..i + 1] ==> EntryOk(root, p)
  {
    assert pairs[..i + 1] == pairs[..i] + [pairs[i]];
  }

  /** The members GetSortedMembers found are written to their end exactly when MembersOk holds. */
  lemma MembersOkFromList(root: Option<TypeDesc>, v: Value, filter: bool, nonPublic: bool, members: seq<Member>)
    requires v != Null && ChainReadable(v.rt, nonPublic) && |Slots(v)| == ChainSize(v.rt)
    requires forall x :: x in members <==> x in Dedup(Candidates(v.rt, Slots(v), filter, nonPublic))
    requires forall x :: x in members ==> x.value in Slots(v)
    ensures MembersOk(root, v, filter, nonPublic) <==> forall m :: m in members ==> MemberOk(root, m)
  {
    assert forall x :: x in Slots(v) ==> x < v;
  }

  class Serializer {
    /** GetArrayType of the type the serializer was made for. */
    const rootElementType: Option<TypeDesc>
    /** The prefixes the writer has in scope, as its LookupPrefix reports them. */
    const prefixOf: map<string, string>
    /** Everything written to the writer, in order. */
    var trace: seq<Event>
    var depth: nat
    var prefixes: nat
    /** The last z:Id handed out. */
    var id: nat
    /** The namespace stack, top last. */
    var namespaces: seq<string>

    constructor (rootType: TypeDesc, prefixOf: map<string, string>)
      ensures rootElementType == GetArrayType(rootType) && this.prefixOf == prefixOf
      ensures trace == [] && depth == 0 && prefixes == 0 && id == 0 && namespaces == []
    {
      this.prefixOf := prefixOf;
      rootElementType := GetArrayType(rootType);
      trace := [];
      depth := 0;
      prefixes := 0;
      id := 0;
      namespaces := [];
    }

    function Lookup(ns: string): Option<string>
    {
      if ns in prefixOf then Some(prefixOf[ns]) else None
    }

    /** What WriteTypeDeclaration writes from the current state: the prefix, then xsi:type unless `ns` is on the stack. */
    function DeclarationEvents(prefixType: TypeDesc, valueType: TypeDesc, ns: string): seq<Event>
      reads this
    {
      var chosen := if Lookup(ns).Some? then Lookup(ns).value else GeneratedPrefix(depth, prefixes + 1);
      [LookupPrefix(ns, Lookup(ns))]
        + (if prefixType.ns.Some? then [Attribute(Some(XmlnsPrefix), chosen, None, ns)] else [])
        + (if ns !in namespaces then TypeAttribute(valueType, ns) else [])
    }

    /**
     * The type declaration WritePlainValue writes before a scalar, from the current state: an
     * enum declares its type unless `ns` is on the stack, a boolean or string declared as
     * object declares its schema type, and nothing else declares anything.
     */
    function ScalarDeclaration(t: TypeDesc, value: Value, ns: string): seq<Event>
      requires value.Scalar?
      reads this
    {
      var vt := RuntimeType(value);
      if vt.kind.Enum? && ns !in namespaces then DeclarationEvents(vt, vt, ns)
      else if (vt.kind.Boolean? || vt.kind.String?) && t == ObjectType then DeclarationEvents(vt, vt, SchemaNamespace)
      else []
    }

    /** WriteNull: a nil element in the default namespace. */
    method WriteNull(field: string)
      modifies this
      ensures trace == old(trace) + NilElement(field)
      ensures WroteElement(old(trace), id, trace, id, field, Namespace)
      ensures depth == old(depth) && prefixes == old(prefixes) && id == old(id) && namespaces == old(namespaces)
    {
      NilIsElement(trace, id, field);
      trace := trace + NilElement(field);
    }

    /**
     * WritePrefix: a given prefix is used as is; otherwise the writer is asked, and when it
     * has none a new one is made up from the depth and the per-element count. The xmlns
     * declaration is only written for a type with a namespace.
     */
    method WritePrefix(prefix: Option<string>, t: TypeDesc, ns: string)
      modifies this
      ensures prefixes == if prefix.None? && Lookup(ns).None? then old(prefixes) + 1 else old(prefixes)
      ensures var chosen := if prefix.Some? then prefix.value
                            else if Lookup(ns).Some? then Lookup(ns).value
                            else GeneratedPrefix(depth, prefixes);
        trace == old(trace)
          + (if prefix.None? then [LookupPrefix(ns, Lookup(ns))] else [])
          + (if t.ns.Some? then [Attribute(Some(XmlnsPrefix), chosen, None, ns)] else [])
      ensures Wrote(old(trace), id, trace, id)
      ensures depth == old(depth) && id == old(id) && namespaces == old(namespaces)
    {
      var p := prefix;
      ghost var t0 := trace;
      if p.None? {
        p := Lookup(ns);
        trace := trace + [LookupPrefix(ns, p)];
      }
      if p.None? {
        prefixes := prefixes + 1;
        p := Some(GeneratedPrefix(depth, prefixes));
      }
      if t.ns.Some? {
        trace := trace + [Attribute(Some(XmlnsPrefix), p.value, None, ns)];
      }
      WroteFlat(t0, id, trace[|t0|..]);
      assert t0 + trace[|t0|..] == trace;
    }

    /** WriteTypeNamespace: an xsi:type attribute and a push, unless `ns` is already on the stack. */
    method WriteTypeNamespace(t: TypeDesc, ns: string) returns (written: bool)
      modifies this
      ensures written <==> ns !in old(namespaces)
      ensures written ==> (namespaces == old(namespaces) + [ns]
        && trace == old(trace) + TypeAttribute(t, ns))
      ensures !written ==> namespaces == old(namespaces) && trace == old(trace)
      ensures Wrote(old(trace), id, trace, id)
      ensures depth == old(depth) && prefixes == old(prefixes) && id == old(id)
    {
      written := false;
      WroteNothing(trace, id);
      if ns !in namespaces {
        var es := TypeAttribute(t, ns);
        WroteFlat(trace, id, es);
        trace := trace + es;
        namespaces := namespaces + [ns];
        written := true;
      }
    }
    /**
     * WriteField: one element named `name` in `ns` for a value whose declared type is `t`.
     * Depth and namespace stack are as before once the element is closed.
     */
    method WriteField(name: string, t: TypeDesc, value: Value, ns: string) returns (ok: bool)
      requires Typed(value)
      modifies this
      ensures old(trace) <= trace
      ensures value == Null ==> !ok
      ensures ok <==> Writable(rootElementType, value)
      ensures ok ==> WroteElement(old(trace), old(id), trace, id, name, ns)
      ensures ok ==> depth == old(depth) && namespaces == old(namespaces)
      decreases value, 7
    {
      depth := depth + 1;
      prefixes := 0;
      ghost var t0, id0, d0 := trace, id, depth;
      trace := trace + [StartElement(None, name, Some(ns))];
      if value == Null {
        // value.GetType() throws
        return false;
      }
      var namespaced;
      ok, namespaced := WriteValue(t, value, ns);
      if !ok {
        return;
      }
      if namespaced {
        namespaces := namespaces[..|namespaces| - 1];
      }
      depth := depth - 1;
      CloseElement(t0, id0, trace, id, name, ns);
      trace := trace + [EndElement];
    }

    /** WritePrefix with no given prefix for `prefixType`, then WriteTypeNamespace for `valueType`, in `ns`. */
    method WriteTypeDeclaration(prefixType: TypeDesc, valueType: TypeDesc, ns: string) returns (namespaced: bool)
      modifies this
      ensures namespaced <==> ns !in old(namespaces)
      ensures prefixes == if Lookup(ns).None? then old(prefixes) + 1 else old(prefixes)
      ensures var chosen := if Lookup(ns).Some? then Lookup(ns).value else GeneratedPrefix(depth, prefixes);
        trace == old(trace) + [LookupPrefix(ns, Lookup(ns))]
          + (if prefixType.ns.Some? then [Attribute(Some(XmlnsPrefix), chosen, None, ns)] else [])
          + (if namespaced then TypeAttribute(valueType, ns) else [])
      ensures trace == old(trace) + old(DeclarationEvents(prefixType, valueType, ns))
      ensures namespaced ==> namespaces == old(namespaces) + [ns]
      ensures Wrote(old(trace), id, trace, id) && id == old(id)
      ensures depth == old(depth) && Pushed(old(namespaces), namespaces, namespaced)
    {
      ghost var t0 := trace;
      WritePrefix(None, prefixType, ns);
      ghost var t1 := trace;
      namespaced := WriteTypeNamespace(valueType, ns);
      WroteTrans(t0, id, t1, id, trace, id);
    }

    /** The content of WriteField's element: one of three branches, chosen by the value's runtime type. */
    method WriteValue(t: TypeDesc, value: Value, ns: string) returns (ok: bool, namespaced: bool)
      requires value != Null && Typed(value)
      modifies this
      ensures old(trace) <= trace
      ensures ok <==> Writable(rootElementType, value)
      ensures ok ==> Wrote(old(trace), old(id), trace, id)
      ensures ok ==> depth == old(depth) && Pushed(old(namespaces), namespaces, namespaced)
      decreases value, 6
    {
      if IsContractValue(rootElementType, value) {
        ok, namespaced := WriteContractValue(value, ns);
      } else if value.Items? || value.Entries? {
        ok, namespaced := WriteEnumerableValue(t, value, ns);
      } else {
        ok, namespaced := WritePlainValue(t, value, ns);
      }
    }

    /** The data contract branch of WriteField: the value's type, or its element type, is a data contract. */
    method WriteContractValue(value: Value, ns: string) returns (ok: bool, namespaced: bool)
      requires value != Null && Typed(value)
      modifies this
      ensures old(trace) <= trace
      ensures ok <==> ContractBodyOk(rootElementType, value)
      ensures namespaced <==> ContractNamespace(value, ns) !in old(namespaces)
      ensures ok ==> Wrote(old(trace), old(id), trace, id)
      ensures ok ==> depth == old(depth) && Pushed(old(namespaces), namespaces, namespaced)
      ensures ok && namespaced ==> namespaces == old(namespaces) + [ContractNamespace(value, ns)]
      decreases value, 5
    {
      var valueType := RuntimeType(value);
      var element := GetArrayType(valueType);
      var contractNs := ContractNamespace(value, ns);
      namespaced := false;
      ghost var t0, id0 := trace, id;
      if contractNs !in namespaces {
        var prefixType := if element.Some? then element.value else valueType;
        namespaced := WriteTypeDeclaration(prefixType, valueType, contractNs);
      } else {
        WroteNothing(t0, id0);
      }
      ghost var t1 := trace;
      ok := WriteContractBody(value, contractNs);
      if ok {
        WroteTrans(t0, id0, t1, id0, trace, id);
      }
    }

    /** The contents of a data contract value: its items, its enum name as text, or its data members. */
    method WriteContractBody(value: Value, ns: string) returns (ok: bool)
      requires value != Null && Typed(value)
      modifies this
      ensures old(trace) <= trace
      ensures ok <==> ContractBodyOk(rootElementType, value)
      ensures ok ==> Wrote(old(trace), old(id), trace, id)
      ensures ok ==> depth == old(depth) && namespaces == old(namespaces)
      decreases value, 4
    {
      if value.Items? || value.Entries? {
        ok := WriteDataContractEnumerable(value, ns);
      } else if value.Scalar? {
        // a data contract scalar is an enum (see Typed)
        WroteFlat(trace, id, [Text(value.text)]);
        trace := trace + [Text(value.text)];
        ok := true;
      } else {
        ghost var members, parts;
        ok, members, parts := WriteDataContractObjectContents(value, ns);
      }
    }

    /** The enumerable branch of WriteField: a collection or dictionary that is not a data contract. */
    method WriteEnumerableValue(t: TypeDesc, value: Value, ns: string) returns (ok: bool, namespaced: bool)
      requires (value.Items? || value.Entries?) && Typed(value)
      modifies this
      ensures old(trace) <= trace
      ensures ok <==> EnumerableOk(rootElementType, value)
      ensures ok ==> Wrote(old(trace), old(id), trace, id)
      ensures ok ==> depth == old(depth) && Pushed(old(namespaces), namespaces, namespaced)
      decreases value, 5
    {
      var valueType := RuntimeType(value);
      var element := GetArrayType(valueType);
      namespaced := false;
      ghost var t0 := trace;
      if element.Some? && element.value.isDataContract {
        WritePrefix(Some(XsiPrefix), valueType, InstanceNamespace);
        ghost var t1 := trace;
        ok := WriteDataContractEnumerable(value, ns);
        if ok {
          WroteTrans(t0, old(id), t1, old(id), trace, id);
        }
        return;
      }
      var itemNs := ns;
      if element.None? || element.value.ns == Some("System") || element.value.ns == Some("System.Collections.Generic") {
        itemNs := CollectionsNamespace;
      } else if element.value.ns.Some? {
        itemNs := ns + element.value.ns.value;
      }
      if value.Entries? {
        WritePrefix(None, valueType, itemNs);
        ghost var t1 := trace;
        ok := WriteDictionary(value, itemNs);
        if ok {
          WroteTrans(t0, old(id), t1, old(id), trace, id);
        }
      } else {
        ok, namespaced := WriteItemsValue(t, value, itemNs);
      }
    }

    /** The collection case of the enumerable branch, with `ns` already chosen for the items. */
    method WriteItemsValue(t: TypeDesc, value: Value, ns: string) returns (ok: bool, namespaced: bool)
      requires value.Items? && Typed(value)
      modifies this
      ensures old(trace) <= trace
      ensures ok <==> ItemsOk(rootElementType, value)
      ensures namespaced <==> value.items != [] && ns !in old(namespaces) && t.ns == Some("System") && t != RuntimeType(value)
      ensures ok ==> Wrote(old(trace), old(id), trace, id)
      ensures ok ==> depth == old(depth) && Pushed(old(namespaces), namespaces, namespaced)
      ensures ok && namespaced ==> namespaces == old(namespaces) + [ns]
      decreases value, 4
    {
      var valueType := RuntimeType(value);
      var element := GetArrayType(valueType);
      namespaced := false;
      ghost var t0 := trace;
      var empty := IsEmpty(value.items);
      if !empty {
        if ns !in namespaces {
          if t.ns == Some("System") && t != valueType {
            namespaced := WriteTypeDeclaration(valueType, valueType, ns);
          } else {
            WritePrefix(None, valueType, ns);
          }
        } else {
          WroteNothing(t0, id);
        }
        ghost var t1, n1 := trace, namespaces;
        namespaces := namespaces + [ns];
        ok := WritePrimitiveEnumerable(value, ns);
        if ok {
          namespaces := namespaces[..|namespaces| - 1];
          assert namespaces == n1;
          WroteTrans(t0, old(id), t1, old(id), trace, id);
        }
      } else if element.Some? && element.value.ns.Some? {
        WritePrefix(None, valueType, ns);
        ok := true;
      } else {
        WroteNothing(t0, id);
        ok := true;
      }
    }

    /** The remaining branch of WriteField: numbers, booleans, strings, enums and plain objects. */
    method WritePlainValue(t: TypeDesc, value: Value, ns: string) returns (ok: bool, namespaced: bool)
      requires value != Null && !value.Items? && !value.Entries? && Typed(value)
      modifies this
      ensures old(trace) <= trace
      ensures ok <==> (value.Instance? ==> MembersOk(rootElementType, value, false, false))
      ensures value.Scalar? ==> trace == old(trace) + old(ScalarDeclaration(t, value, ns)) + [ScalarText(value)]
      ensures ok ==> Wrote(old(trace), old(id), trace, id)
      ensures ok ==> depth == old(depth) && Pushed(old(namespaces), namespaces, namespaced)
      decreases value, 5
    {
      if value.Instance? {
        ok, namespaced := WritePlainObject(t, value, ns);
      } else {
        namespaced := WriteScalarValue(t, value, ns);
        ok := true;
      }
    }

    /** The scalar case of WritePlainValue: its type declaration, then its text. */
    method WriteScalarValue(t: TypeDesc, value: Value, ns: string) returns (namespaced: bool)
      requires value.Scalar? && Typed(value)
      modifies this
      ensures trace == old(trace) + old(ScalarDeclaration(t, value, ns)) + [ScalarText(value)]
      ensures Wrote(old(trace), old(id), trace, id)
      ensures depth == old(depth) && Pushed(old(namespaces), namespaces, namespaced)
    {
      ghost var t0 := trace;
      namespaced := WriteScalarDeclaration(t, value, ns);
      // booleans and enums are written as strings, numbers and strings through WriteValue
      var text := ScalarText(value);
      ghost var t1 := trace;
      WroteFlat(t1, id, [text]);
      trace := trace + [text];
      WroteTrans(t0, id, t1, id, trace, id);
    }

    /** The declaration before a scalar: WriteTypeDeclaration on the conditions of ScalarDeclaration. */
    method WriteScalarDeclaration(t: TypeDesc, value: Value, ns: string) returns (namespaced: bool)
      requires value.Scalar? && Typed(value)
      modifies this
      ensures trace == old(trace) + old(ScalarDeclaration(t, value, ns))
      ensures Wrote(old(trace), id, trace, id) && id == old(id)
      ensures depth == old(depth) && Pushed(old(namespaces), namespaces, namespaced)
    {
      var valueType := RuntimeType(value);
      namespaced := false;
      if valueType.kind.Enum? && ns !in namespaces {
        namespaced := WriteTypeDeclaration(valueType, valueType, ns);
      } else if (valueType.kind.Boolean? || valueType.kind.String?) && t == ObjectType {
        namespaced := WriteTypeDeclaration(valueType, valueType, SchemaNamespace);
      } else {
        WroteNothing(trace, id);
      }
    }

    /** The plain object case: a namespace of its own unless `ns` already ends with it, then its public members. */
    method WritePlainObject(t: TypeDesc, value: Value, ns: string) returns (ok: bool, namespaced: bool)
      requires value.Instance? && Typed(value)
      modifies this
      ensures old(trace) <= trace
      ensures ok <==> MembersOk(rootElementType, value, false, false)
      ensures ok ==> Wrote(old(trace), old(id), trace, id)
      ensures ok ==> depth == old(depth) && Pushed(old(namespaces), namespaces, namespaced)
      decreases value, 3
    {
      var valueType := RuntimeType(value);
      var objectNs := ns;
      namespaced := false;
      ghost var t0, id0 := trace, id;
      if valueType.ns.Some? && !EndsWith(ns, valueType.ns.value) {
        objectNs := ns + valueType.ns.value;
        if t.ns != Some("UnityEngine") {
          namespaced := WriteTypeDeclaration(valueType, valueType, objectNs);
        } else {
          WritePrefix(None, valueType, objectNs);
        }
      } else if t == ObjectType {
        objectNs := Namespace;
        namespaced := WriteTypeDeclaration(valueType, valueType, objectNs);
      } else {
        WroteNothing(t0, id0);
      }
      ghost var t1 := trace;
      var found, members := GetSortedMembers(value, false, false);
      if !found {
        // GetGetMethod() of a property without a public getter is null
        return false, namespaced;
      }
      TypedSlots(value);
      MembersOkFromList(rootElementType, value, false, false, members);
      ghost var parts;
      ok, parts := WriteMembers(members, objectNs, value);
      if ok {
        WroteTrans(t0, id0, t1, id0, trace, id);
      }
    }

    /** IsEmpty: whether enumeration yields no item, stopping at the first. */
    method IsEmpty(items: seq<Value>) returns (empty: bool)
      ensures empty <==> items == []
    {
      empty := true;
      for i := 0 to |items|
        invariant empty <==> i == 0
      {
        empty := false;
        break;
      }
    }

    /**
     * WriteDataContractEnumerable: one element per item, named after the element type; a
     * reference-typed item gets the next z:Id and an xsi:type. Fails without an element type.
     */
    method WriteDataContractEnumerable(value: Value, ns: string) returns (ok: bool)
      requires (value.Items? || value.Entries?) && Typed(value)
      modifies this
      ensures old(trace) <= trace
      ensures GetArrayType(RuntimeType(value)).None? ==> !ok
      ensures ok <==> ContractItemsOk(rootElementType, value)
      ensures ok ==> Wrote(old(trace), old(id), trace, id)
      ensures ok ==> depth == old(depth) && namespaces == old(namespaces)
      decreases value, 3
    {
      depth := depth + 1;
      prefixes := 0;
      var element := GetArrayType(RuntimeType(value));
      if element.None? {
        // GetTypeString(null) throws
        return false;
      }
      var typeName := GetTypeString(element.value);
      if value.Items? {
        ok := WriteContractItems(value.items, typeName, ns, value);
        if !ok {
          return;
        }
      } else {
        WriteEntryElements(|value.pairs|, typeName, ns);
      }
      depth := depth - 1;
      ok := true;
    }

    /** The loop of WriteDataContractEnumerable over the items of a collection. */
    method WriteContractItems(items: seq<Value>, typeName: string, ns: string, ghost owner: Value) returns (ok: bool)
      requires forall x :: x in items ==> x < owner && Typed(x)
      modifies this
      ensures old(trace) <= trace
      ensures ok <==> forall x :: x in items ==> ContractItemOk(rootElementType, x)
      ensures ok ==> Wrote(old(trace), old(id), trace, id)
      ensures ok ==> depth == old(depth) && namespaces == old(namespaces)
      decreases owner, 2
    {
      ghost var t0, id0 := trace, id;
      WroteNothing(t0, id0);
      for i := 0 to |items|
        invariant forall j :: 0 <= j < i ==> ContractItemOk(rootElementType, items[j])
        invariant Wrote(t0, id0, trace, id)
        invariant depth == old(depth) && namespaces == old(namespaces)
      {
        var item := items[i];
        assert item in items;
        ghost var t1, id1 := trace, id;
        if item == Null {
          WriteNull(typeName);
        } else {
          ok := WriteContractItem(item, typeName, ns);
          if !ok {
            return;
          }
        }
        WroteTrans(t0, id0, t1, id1, trace, id);
      }
      ok := true;
    }

    /**
     * The loop of WriteDataContractEnumerable over a dictionary. Each entry it enumerates (a
     * DictionaryEntry or a KeyValuePair) has no data members, so it is an empty element.
     */
    method WriteEntryElements(count: nat, typeName: string, ns: string)
      modifies this
      ensures trace == old(trace) + EmptyElements(count, typeName, ns)
      ensures old(trace) <= trace
      ensures Wrote(old(trace), id, trace, id) && id == old(id)
      ensures depth == old(depth) && namespaces == old(namespaces)
    {
      ghost var t0 := trace;
      for i := 0 to count
        invariant trace == t0 + EmptyElements(i, typeName, ns)
        invariant id == old(id) && depth == old(depth) && namespaces == old(namespaces)
      {
        trace := trace + [StartElement(None, typeName, Some(ns)), EndElement];
      }
      EmptyElementsWrote(t0, id, count, typeName, ns);
    }

    /** The z:Id and xsi:type written for an item whose data contract is a reference type. */
    method WriteReference(itemType: TypeDesc, ns: string)
      modifies this
      ensures id == old(id) + 1
      ensures trace == old(trace) + [IdAttribute(id), LookupPrefix(ns, Lookup(ns))] + TypeAttribute(itemType, ns)
      ensures Wrote(old(trace), old(id), trace, id)
      ensures depth == old(depth) && prefixes == old(prefixes) && namespaces == old(namespaces)
    {
      id := id + 1;
      var es := [IdAttribute(id), LookupPrefix(ns, Lookup(ns))] + TypeAttribute(itemType, ns);
      WroteHeader(trace, id - 1, es);
      trace := trace + es;
    }

    /** One non-null item of WriteDataContractEnumerable. */
    method WriteContractItem(item: Value, typeName: string, ns: string) returns (ok: bool)
      requires item != Null && Typed(item)
      modifies this
      ensures old(trace) <= trace
      ensures ok <==> MembersOk(rootElementType, item, true, true)
      ensures ok ==> WroteElement(old(trace), old(id), trace, id, typeName, ns)
      ensures ok ==> depth == old(depth) && namespaces == old(namespaces)
      decreases item, 4
    {
      ghost var t0, id0 := trace, id;
      trace := trace + [StartElement(None, typeName, Some(ns))];
      var itemType := RuntimeType(item);
      if itemType.isDataContract && itemType.isReference {
        WriteReference(itemType, ns);
      } else {
        WroteNothing(trace, id);
      }
      ghost var t1, id1 := trace, id;
      ghost var members, parts;
      ok, members, parts := WriteDataContractObjectContents(item, ns);
      if !ok {
        return;
      }
      CloseAfter(t0, id0, t1, id1, trace, id, typeName, ns);
      trace := trace + [EndElement];
    }

    /**
     * WriteDictionary: per entry an element named after the key and value types, holding a
     * Key and a Value field. A null value fails before the entry's element is started.
     */
    method WriteDictionary(value: Value, ns: string) returns (ok: bool)
      requires value.Entries? && Typed(value)
      modifies this
      ensures old(trace) <= trace
      ensures ok ==> forall p :: p in value.pairs ==> p.value != Null
      ensures ok <==> EntriesOk(rootElementType, value)
      ensures ok ==> Wrote(old(trace), old(id), trace, id)
      ensures ok ==> depth == old(depth) && namespaces == old(namespaces)
      decreases value, 3
    {
      ghost var t0, id0 := trace, id;
      WroteNothing(t0, id0);
      for i := 0 to |value.pairs|
        invariant forall p :: p in value.pairs[..i] ==> EntryOk(rootElementType, p)
        invariant old(trace) <= trace
        invariant Wrote(t0, id0, trace, id)
        invariant depth == old(depth) && namespaces == old(namespaces)
      {
        var entry := value.pairs[i];
        assert entry in value.pairs;
        if entry.value == Null {
          // GetTypeString(entry) dereferences the null value
          return false;
        }
        ghost var t1, id1 := trace, id;
        ok := WriteEntry(entry, ns);
        if !ok {
          return;
        }
        WroteTrans(t0, id0, t1, id1, trace, id);
        EntryOkSnoc(rootElementType, value.pairs, i);
      }
      assert value.pairs[..|value.pairs|] == value.pairs;
      ok := true;
    }

    /** One dictionary entry: its element holds the Key field and then the Value field. */
    method WriteEntry(entry: Pair, ns: string) returns (ok: bool)
      requires entry.key != Null && entry.value != Null && Typed(entry.key) && Typed(entry.value)
      modifies this
      ensures old(trace) <= trace
      ensures ok <==> Writable(rootElementType, entry.key) && Writable(rootElementType, entry.value)
      ensures ok ==> WroteElement(old(trace), old(id), trace, id, EntryTypeString(entry), ns)
      ensures ok ==> depth == old(depth) && namespaces == old(namespaces)
      decreases entry
    {
      ghost var t1, id1 := trace, id;
      var entryName := EntryTypeString(entry);
      trace := trace + [StartElement(None, entryName, Some(ns))];
      ghost var t2 := trace;
      ok := WriteField("Key", RuntimeType(entry.key), entry.key, ns);
      if !ok {
        return;
      }
      ghost var t3, id3 := trace, id;
      ok := WriteField("Value", RuntimeType(entry.value), entry.value, ns);
      if !ok {
        return;
      }
      WroteTrans(t2, id1, t3, id3, trace, id);
      CloseElement(t1, id1, trace, id, entryName, ns);
      trace := trace + [EndElement];
    }

    /** WritePrimitiveEnumerable: one field per item, named after the element type. */
    method WritePrimitiveEnumerable(value: Value, ns: string) returns (ok: bool)
      requires value.Items? && Typed(value)
      modifies this
      ensures old(trace) <= trace
      ensures ok ==> forall x :: x in value.items ==> x != Null
      ensures ok && value.items != [] ==> GetArrayType(RuntimeType(value)).Some?
      ensures ok <==> ItemsOk(rootElementType, value)
      ensures ok ==> Wrote(old(trace), old(id), trace, id)
      ensures ok ==> depth == old(depth) && namespaces == old(namespaces)
      decreases value, 3
    {
      ghost var t0, id0 := trace, id;
      WroteNothing(t0, id0);
      for i := 0 to |value.items|
        invariant forall x :: x in value.items[..i] ==> x != Null && Writable(rootElementType, x)
        invariant i > 0 ==> GetArrayType(RuntimeType(value)).Some?
        invariant old(trace) <= trace
        invariant Wrote(t0, id0, trace, id)
        invariant depth == old(depth) && namespaces == old(namespaces)
      {
        var element := GetArrayType(RuntimeType(value));
        if element.None? {
          // GetTypeString(null) throws
          return false;
        }
        var description := GetTypeString(element.value);
        ghost var t1, id1 := trace, id;
        ok := WriteField(description, element.value, value.items[i], ns);
        if !ok {
          return;
        }
        assert value.items[..i + 1] == value.items[..i] + [value.items[i]];
        WroteTrans(t0, id0, t1, id1, trace, id);
      }
      assert value.items[..|value.items|] == value.items;
      ok := true;
    }

    /**
     * WriteDataContractObjectContents: the value's data members, public or not, in name
     * order; a null member as a nil element.
     */
    method WriteDataContractObjectContents(graph: Value, ns: string)
      returns (ok: bool, ghost members: seq<Member>, ghost parts: seq<seq<Event>>)
      requires graph != Null && Typed(graph)
      modifies this
      ensures old(trace) <= trace
      ensures StrictlyOrdered(members)
      ensures ChainReadable(RuntimeType(graph), true) ==>
        forall x :: x in members <==> x in Dedup(Candidates(RuntimeType(graph), Slots(graph), true, true))
      ensures ok <==> MembersOk(rootElementType, graph, true, true)
      ensures ok ==> MemberParts(parts, members, ns) && trace == old(trace) + Concat(parts)
      ensures ok ==> Wrote(old(trace), old(id), trace, id)
      ensures ok ==> depth == old(depth) && namespaces == old(namespaces)
      decreases graph, 3
    {
      var found, sorted := GetSortedMembers(graph, true, true);
      if !found {
        // GetGetMethod() of a property without a public getter is null
        return false, [], [];
      }
      members := sorted;
      TypedSlots(graph);
      MembersOkFromList(rootElementType, graph, true, true, sorted);
      ok, parts := WriteMembers(sorted, ns, graph);
    }

    /** The loop over the sorted members shared by both object writers. */
    method WriteMembers(members: seq<Member>, ns: string, ghost owner: Value) returns (ok: bool, ghost parts: seq<seq<Event>>)
      requires forall m :: m in members ==> m.value < owner && Typed(m.value)
      modifies this
      ensures old(trace) <= trace
      ensures ok <==> forall m :: m in members ==> MemberOk(rootElementType, m)
      ensures ok ==> MemberParts(parts, members, ns) && trace == old(trace) + Concat(parts)
      ensures ok ==> Wrote(old(trace), old(id), trace, id)
      ensures ok ==> depth == old(depth) && namespaces == old(namespaces)
      decreases owner, 2
    {
      ghost var t0, id0 := trace, id;
      WroteNothing(t0, id0);
      parts := [];
      for i := 0 to |members|
        invariant forall m :: m in members[..i] ==> MemberOk(rootElementType, m)
        invariant MemberParts(parts, members[..i], ns)
        invariant trace == t0 + Concat(parts) && Wrote(t0, id0, trace, id)
        invariant depth == old(depth) && namespaces == old(namespaces)
      {
        assert members[i] in members;
        ghost var t1, id1 := trace, id;
        ok := WriteMember(members[i], ns, owner);
        if !ok {
          return;
        }
        WroteTrans(t0, id0, t1, id1, trace, id);
        MemberPartsSnoc(t0, parts, members, i, t1, trace, ns);
        MemberOkSnoc(rootElementType, members, i);
        parts := parts + [trace[|t1|..]];
      }
      assert members[..|members|] == members;
      ok := true;
    }

    /** One member: a nil element for a null value, otherwise a field typed by the member's declared type. */
    method WriteMember(m: Member, ns: string, ghost owner: Value) returns (ok: bool)
      requires m.value < owner && Typed(m.value)
      modifies this
      ensures old(trace) <= trace
      ensures ok <==> MemberOk(rootElementType, m)
      ensures m.value == Null ==> ok && trace == old(trace) + NilElement(m.name)
      ensures ok ==> Wrote(old(trace), old(id), trace, id) && MemberPart(trace[|old(trace)|..], m, ns)
      ensures ok ==> depth == old(depth) && namespaces == old(namespaces)
      decreases owner, 1
    {
      if m.value != Null {
        ok := WriteField(m.name, m.memberType, m.value, ns);
      } else {
        WriteNull(m.name);
        assert trace[|old(trace)|..] == NilElement(m.name);
        ok := true;
      }
    }

    /** WriteObject: the value as one element named after its runtime type, in the default namespace. */
    method WriteObject(graph: Value) returns (ok: bool)
      requires Typed(graph)
      modifies this
      ensures graph == Null ==> !ok && trace == old(trace)
      ensures ok <==> Writable(rootElementType, graph)
      ensures ok ==> WroteElement(old(trace), old(id), trace, id, GetTypeString(RuntimeType(graph)), Namespace)
      ensures ok ==> depth == old(depth) && namespaces == old(namespaces)
    {
      if graph == Null {
        // graph.GetType() throws
        return false;
      }
      var typeName := GetTypeString(RuntimeType(graph));
      ok := WriteField(typeName, RuntimeType(graph), graph, Namespace);
    }
  }
}
