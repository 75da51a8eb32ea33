/** The wire names of types: element names for items and entries, and xsi:type values. */
module TypeNames {
  import opened XmlEvents
  import opened Types

  /** `sub` occurs in `s` at offset `i`. */
  predicate OccursAt(s: string, sub: string, i: int)
  {
    0 <= i && i + |sub| <= |s| && s[i..i + |sub|] == sub
  }

  /** string.Contains, ordinal: `sub` occurs somewhere in `s`. */
  function Contains(s: string, sub: string): (r: bool)
    ensures r <==> exists i :: OccursAt(s, sub, i)
    decreases |s|
  {
    if |sub| > |s| then false
    else if s[..|sub|] == sub then assert OccursAt(s, sub, 0); true
    else
      ContainsShift(s, sub);
      Contains(s[1..], sub)
  }

  lemma ContainsShift(s: string, sub: string)
    requires |sub| <= |s| && s[..|sub|] != sub
    ensures (exists i :: OccursAt(s, sub, i)) <==> (exists i :: OccursAt(s[1..], sub, i))
  {
    if exists i :: OccursAt(s, sub, i) {
      var i :| OccursAt(s, sub, i);
      assert i != 0;
      assert s[1..][i - 1..i - 1 + |sub|] == s[i..i + |sub|];
      assert OccursAt(s[1..], sub, i - 1);
    }
    if exists i :: OccursAt(s[1..], sub, i) {
      var i :| OccursAt(s[1..], sub, i);
      assert s[i + 1..i + 1 + |sub|] == s[1..][i..i + |sub|];
      assert OccursAt(s, sub, i + 1);
    }
  }

  /** string.EndsWith, compared character by character. */
  predicate EndsWith(s: string, suffix: string)
  {
    |suffix| <= |s| && s[|s| - |suffix|..] == suffix
  }

  /** `s` ends with `suffix` exactly when `s` is some string followed by `suffix`. */
  lemma EndsWithSuffix(s: string, suffix: string)
    ensures EndsWith(s, suffix) <==> exists p :: s == p + suffix
  {
    if EndsWith(s, suffix) {
      var p := s[..|s| - |suffix|];
      assert s == p + suffix;
    }
    if exists p :: s == p + suffix {
      var p :| s == p + suffix;
      assert s[|s| - |suffix|..] == suffix;
    }
  }

  /** string.Replace("+", "."): nested type names use '.' where FullName has '+'. */
  function ReplacePlus(s: string): (r: string)
    ensures |r| == |s|
    ensures forall k :: 0 <= k < |s| ==> r[k] == if s[k] == '+' then '.' else s[k]
  {
    if s == [] then [] else ReplacePlus(s[..|s| - 1]) + [if s[|s| - 1] == '+' then '.' else s[|s| - 1]]
  }

  /**
   * GetTypeString(Type): the local name of a type in the wire format. A dictionary is
   * named KeyValueOf..., an enumerable ArrayOf..., and each is named "" when the source
   * cannot name it; the table's types get their schema names, and any other type its
   * Name, or its FullName with nested-type '+' turned into '.'.
   */
  function GetTypeString(t: TypeDesc): (r: string)
    ensures IsDictionary(t) ==> (r == "" <==> |t.genericArgs| != 2)
    ensures IsDictionary(t) && r != "" ==> |r| >= 10 && r[..10] == "KeyValueOf"
    ensures IsArray(t) && !IsDictionary(t) ==> (r == "" <==> GetArrayType(t).None?)
    ensures IsArray(t) && !IsDictionary(t) && r != "" ==> |r| >= 7 && r[..7] == "ArrayOf"
    ensures !IsArray(t) && PrimitiveName(t).Some? ==> r == PrimitiveName(t).value
    ensures !IsArray(t) && PrimitiveName(t).None? && t.ns.Some? && Contains(t.fullName, t.ns.value) ==> r == t.name
    decreases t
  {
    if IsDictionary(t) then
      if |t.genericArgs| == 2 then "KeyValueOf" + GetTypeString(t.genericArgs[0]) + GetTypeString(t.genericArgs[1])
      else ""
    else if IsArray(t) then
      match GetArrayType(t)
      case Some(e) => "ArrayOf" + GetTypeString(e)
      case None => ""
    else if PrimitiveName(t).Some? then PrimitiveName(t).value
    else if t.ns.Some? && Contains(t.fullName, t.ns.value) then t.name
    else ReplacePlus(t.fullName)
  }

  /**
   * A type whose FullName does not contain its Namespace is named by its FullName, with
   * the '+' of nested types turned into '.' and every other character kept.
   */
  lemma NestedTypeName(t: TypeDesc)
    requires !IsArray(t) && PrimitiveName(t).None? && !(t.ns.Some? && Contains(t.fullName, t.ns.value))
    ensures |GetTypeString(t)| == |t.fullName| && '+' !in GetTypeString(t)
    ensures forall k :: 0 <= k < |t.fullName| && t.fullName[k] != '+' ==> GetTypeString(t)[k] == t.fullName[k]
  {
  }

  /** GetTypeString(DictionaryEntry): the entry element's name, from the runtime types of key and value. */
  function EntryTypeString(p: Pair): (r: string)
    requires p.key != Null && p.value != Null
    ensures |r| >= 10 && r[..10] == "KeyValueOf"
  {
    "KeyValueOf" + GetTypeString(RuntimeType(p.key)) + GetTypeString(RuntimeType(p.value))
  }

  /** An entry is named exactly as its dictionary type when key and value have the declared types. */
  lemma EntryNameMatchesDictionary(d: TypeDesc, p: Pair)
    requires d.kind == Dictionary && p.key != Null && p.value != Null
    requires d.genericArgs == [RuntimeType(p.key), RuntimeType(p.value)]
    ensures EntryTypeString(p) == GetTypeString(d)
  {
  }

  lemma ArrayName(t: TypeDesc)
    requires t.kind == Collection && GetArrayType(t).Some?
    ensures GetTypeString(t) == "ArrayOf" + GetTypeString(GetArrayType(t).value)
  {
  }

  /** `t` is `n` enumerable (non-dictionary) types wrapped around `inner`: a list of lists of ... inner. */
  predicate ArrayNest(t: TypeDesc, n: nat, inner: TypeDesc)
    decreases n
  {
    if n == 0 then t == inner
    else
      t.kind == Collection && GetArrayType(t).Some? && ArrayNest(GetArrayType(t).value, n - 1, inner)
  }

  function Repeat(s: string, n: nat): (r: string)
    ensures |r| == n * |s|
  {
    if n == 0 then "" else s + Repeat(s, n - 1)
  }

  lemma RepeatStep(n: nat, g: string)
    ensures n == 0 ==> Repeat("ArrayOf", n) + g == g
    ensures n > 0 ==> "ArrayOf" + (Repeat("ArrayOf", n - 1) + g) == Repeat("ArrayOf", n) + g
  {
    if n == 0 {
      assert "" + g == g;
    }
  }

  /** Nested arrays repeat the ArrayOf prefix once per level. */
  lemma {:induction false} NestedArrayName(t: TypeDesc, n: nat, inner: TypeDesc)
    requires ArrayNest(t, n, inner)
    ensures GetTypeString(t) == Repeat("ArrayOf", n) + GetTypeString(inner)
    decreases n
  {
    if n == 0 {
      RepeatStep(0, GetTypeString(inner));
    } else {
      var e, g := GetArrayType(t).value, GetTypeString(inner);
      NestedArrayName(e, n - 1, inner);
      ArrayName(t);
      RepeatStep(n, g);
      assert GetTypeString(t) == "ArrayOf" + (Repeat("ArrayOf", n - 1) + g);
    }
  }

  /** A type with no namespace, no members and no container kind: it is named by its FullName. */
  function PlainType(name: string): TypeDesc
  {
    TypeDesc(name, None, name, Object, [], None, None, [], false, false)
  }

  lemma PlainTypeName(name: string)
    requires '+' !in name
    ensures GetTypeString(PlainType(name)) == name
  {
    var r := GetTypeString(PlainType(name));
    assert forall k :: 0 <= k < |name| ==> name[k] != '+';
    NestedTypeName(PlainType(name));
    assert forall k :: 0 <= k < |name| ==> r[k] == name[k];
  }

  function DictionaryOf(key: TypeDesc, value: TypeDesc): TypeDesc
  {
    TypeDesc("Dictionary`2", Some("System.Collections.Generic"), "System.Collections.Generic.Dictionary`2",
             Dictionary, [key, value], None, None, [], false, false)
  }

  /** A helper for DictionaryNamesCollide: the name GetTypeString gives DictionaryOf. */
  lemma DictionaryOfName(key: TypeDesc, value: TypeDesc)
    ensures GetTypeString(DictionaryOf(key, value)) == "KeyValueOf" + GetTypeString(key) + GetTypeString(value)
  {
  }

  /**
   * Names of dictionaries have no separator between key and value, so two different
   * dictionary types can share one element name: Dictionary<A, BC> and Dictionary<AB, C>.
   */
  lemma DictionaryNamesCollide(a: string, b: string, c: string)
    requires b != [] && '+' !in a && '+' !in b && '+' !in c
    ensures DictionaryOf(PlainType(a), PlainType(b + c)) != DictionaryOf(PlainType(a + b), PlainType(c))
    ensures GetTypeString(DictionaryOf(PlainType(a), PlainType(b + c)))
         == GetTypeString(DictionaryOf(PlainType(a + b), PlainType(c)))
  {
    var k1, v1, k2, v2 := PlainType(a), PlainType(b + c), PlainType(a + b), PlainType(c);
    PlainTypeName(a);
    PlainTypeName(b + c);
    PlainTypeName(a + b);
    PlainTypeName(c);
    DictionaryOfName(k1, v1);
    DictionaryOfName(k2, v2);
    SplitNames("KeyValueOf", a, b, c);
    assert k1.name != k2.name by {
      assert |a| != |a + b|;
    }
  }

  lemma SplitNames(p: string, a: string, b: string, c: string)
    ensures p + a + (b + c) == p + (a + b) + c
  {
  }
}
