/** Calls the serializer makes on its XmlWriter, and what a well-formed run of them looks like. */
module XmlEvents {

  datatype Option<+T> = None | Some(value: T)

  /** Decimal digits of a natural number, as .NET formats an int with no culture. */
  function NatToString(n: nat): (s: string)
    ensures |s| >= 1
    ensures forall k :: 0 <= k < |s| ==> '0' <= s[k] <= '9'
  {
    if n < 10 then [Digit(n)] else NatToString(n / 10) + [Digit(n % 10)]
  }

  function Digit(d: nat): (c: char)
    requires d < 10
    ensures '0' <= c <= '9'
  {
    match d
    case 0 => '0' case 1 => '1' case 2 => '2' case 3 => '3' case 4 => '4'
    case 5 => '5' case 6 => '6' case 7 => '7' case 8 => '8' case _ => '9'
  }

  lemma DigitInjective(a: nat, b: nat)
    requires a < 10 && b < 10 && Digit(a) == Digit(b)
    ensures a == b
  {
  }

  lemma NatToStringLong(n: nat)
    requires n >= 10
    ensures |NatToString(n)| >= 2
  {
  }

  /** Distinct numbers print differently, so counters give distinct names. */
  lemma {:induction false} NatToStringInjective(a: nat, b: nat)
    requires NatToString(a) == NatToString(b)
    ensures a == b
  {
    var s := NatToString(a);
    if a < 10 && b < 10 {
      DigitInjective(a, b);
    } else if a < 10 {
      NatToStringLong(b);
    } else if b < 10 {
      NatToStringLong(a);
    } else {
      assert NatToString(a / 10) == s[..|s| - 1] == NatToString(b / 10);
      NatToStringInjective(a / 10, b / 10);
      DigitInjective(a % 10, b % 10);
    }
  }

  const XsiPrefix := "i"
  const SerPrefix := "z"
  const XmlnsPrefix := "xmlns"
  const XsiTypeLocalName := "type"
  const XsiNilLocalName := "nil"
  const IdLocalName := "Id"
  const Namespace := "http://schemas.datacontract.org/2004/07/"
  const CollectionsNamespace := "http://schemas.microsoft.com/2003/10/Serialization/Arrays"
  const SerializationNamespace := "http://schemas.microsoft.com/2003/10/Serialization/"
  /** XmlSchema.InstanceNamespace and XmlSchema.Namespace of System.Xml.Schema. */
  const InstanceNamespace := "http://www.w3.org/2001/XMLSchema-instance"
  const SchemaNamespace := "http://www.w3.org/2001/XMLSchema"

  /** One call on the XmlWriter: `Attribute` is WriteAttributeString, `Text` WriteString, `TypedText` WriteValue. */
  datatype Event =
    | StartElement(prefix: Option<string>, localName: string, ns: Option<string>)
    | Attribute(prefix: Option<string>, localName: string, ns: Option<string>, value: string)
    | StartAttribute(prefix: Option<string>, localName: string, ns: Option<string>)
    | QualifiedName(localName: string, qualifier: string)
    | EndAttribute
    | Text(text: string)
    | TypedText(text: string)
    | LookupPrefix(uri: string, result: Option<string>)
    | EndElement

  /** The `z:Id` attribute given to the n-th reference-typed item: "i1", "i2", ... */
  function Token(n: nat): string
  {
    XsiPrefix + NatToString(n)
  }

  lemma TokenInjective(a: nat, b: nat)
    requires Token(a) == Token(b)
    ensures a == b
  {
    assert NatToString(a) == Token(a)[1..] == Token(b)[1..] == NatToString(b);
    NatToStringInjective(a, b);
  }

  function IdAttribute(n: nat): Event
  {
    Attribute(Some(SerPrefix), IdLocalName, Some(SerializationNamespace), Token(n))
  }

  /** Element nesting change of one event. */
  function Delta(e: Event): int
  {
    if e.StartElement? then 1 else if e.EndElement? then -1 else 0
  }

  /** Number of elements left open after the events. */
  function Level(es: seq<Event>): int
  {
    if es == [] then 0 else Level(es[..|es| - 1]) + Delta(es[|es| - 1])
  }

  function Min(a: int, b: int): int
  {
    if a <= b then a else b
  }

  /** The lowest nesting level any prefix of `es` reaches, the empty prefix included. */
  function Low(es: seq<Event>): int
  {
    if es == [] then 0 else Min(Low(es[..|es| - 1]), Level(es))
  }

  /** Every end closes an element opened earlier in `es`, and all of them are closed. */
  ghost predicate Balanced(es: seq<Event>)
  {
    Level(es) == 0 && Low(es) >= 0
  }

  /** Low is the minimum over the prefixes: no prefix of a balanced sequence closes more than it opened. */
  lemma {:induction false} LowPrefix(es: seq<Event>, k: nat)
    requires k <= |es|
    ensures Low(es) <= Level(es[..k])
    ensures k == |es| ==> Low(es) <= Level(es)
    decreases |es|
  {
    assert es[..|es|] == es;
    if k < |es| {
      var es' := es[..|es| - 1];
      assert es'[..k] == es[..k];
      LowPrefix(es', k);
    }
  }

  /** One element named `name` in `ns`: its start, balanced content, its end. */
  ghost predicate IsElement(es: seq<Event>, name: string, ns: string)
  {
    |es| >= 2 && es[0] == StartElement(None, name, Some(ns)) && es[|es| - 1] == EndElement
    && Balanced(es[1..|es| - 1])
  }

  /** The nil element written for a null member or item. */
  function NilElement(name: string): seq<Event>
  {
    [StartElement(None, name, Some(Namespace)),
     Attribute(Some(XsiPrefix), XsiNilLocalName, Some(InstanceNamespace), "true"),
     EndElement]
  }

  /** A `z:Id` attribute. */
  predicate IsIdEvent(e: Event)
  {
    e.Attribute? && e.prefix == Some(SerPrefix) && e.localName == IdLocalName
  }

  /** The values of the `z:Id` attributes in `es`, in order. */
  function Tokens(es: seq<Event>): seq<string>
  {
    if es == [] then []
    else
      var e := es[|es| - 1];
      Tokens(es[..|es| - 1]) + (if IsIdEvent(e) then [e.value] else [])
  }

  /** Tokens i{a+1} ... i{b}. */
  function IdRange(a: nat, b: nat): (r: seq<string>)
    ensures |r| == if a <= b then b - a else 0
    decreases b
  {
    if b <= a then [] else IdRange(a, b - 1) + [Token(b)]
  }

  lemma {:induction false} IdRangeAt(a: nat, b: nat, k: nat)
    requires a + k < b
    ensures IdRange(a, b)[k] == Token(a + k + 1)
    decreases b
  {
    if a + k + 1 < b {
      IdRangeAt(a, b - 1, k);
    }
  }

  /** Tokens handed out by a counter going from a to b are pairwise distinct. */
  lemma IdRangeDistinct(a: nat, b: nat, j: nat, k: nat)
    requires j < k && a + k < b
    ensures IdRange(a, b)[j] != IdRange(a, b)[k]
  {
    IdRangeAt(a, b, j);
    IdRangeAt(a, b, k);
    if Token(a + j + 1) == Token(a + k + 1) {
      TokenInjective(a + j + 1, a + k + 1);
    }
  }

  lemma {:induction false} IdRangeSplit(a: nat, b: nat, c: nat)
    requires a <= b <= c
    ensures IdRange(a, b) + IdRange(b, c) == IdRange(a, c)
    decreases c
  {
    if b < c {
      IdRangeSplit(a, b, c - 1);
      var t := [Token(c)];
      assert IdRange(a, b) + IdRange(b, c - 1) + t == IdRange(a, b) + (IdRange(b, c - 1) + t);
    }
  }

  lemma {:induction false} LevelConcat(a: seq<Event>, b: seq<Event>)
    ensures Level(a + b) == Level(a) + Level(b)
    decreases |b|
  {
    if b != [] {
      var b' := b[..|b| - 1];
      assert (a + b)[..|a + b| - 1] == a + b';
      LevelConcat(a, b');
    } else {
      assert a + b == a;
    }
  }

  lemma {:induction false} TokensConcat(a: seq<Event>, b: seq<Event>)
    ensures Tokens(a + b) == Tokens(a) + Tokens(b)
    decreases |b|
  {
    if b != [] {
      var b' := b[..|b| - 1];
      assert (a + b)[..|a + b| - 1] == a + b';
      TokensConcat(a, b');
    } else {
      assert a + b == a;
    }
  }

  lemma {:induction false} LowConcat(a: seq<Event>, b: seq<Event>)
    ensures Low(a + b) == Min(Low(a), Level(a) + Low(b))
    decreases |b|
  {
    if b != [] {
      var b' := b[..|b| - 1];
      assert (a + b)[..|a + b| - 1] == a + b';
      LowConcat(a, b');
      LevelConcat(a, b);
    } else {
      assert a + b == a;
    }
  }

  lemma BalancedConcat(a: seq<Event>, b: seq<Event>)
    requires Balanced(a) && Balanced(b)
    ensures Balanced(a + b)
  {
    LevelConcat(a, b);
    LowConcat(a, b);
  }

  /** Events that open and close nothing are balanced. */
  lemma {:induction false} FlatBalanced(es: seq<Event>)
    requires forall k :: 0 <= k < |es| ==> Delta(es[k]) == 0
    ensures Balanced(es)
    decreases |es|
  {
    FlatLevel(es);
    if es != [] {
      FlatBalanced(es[..|es| - 1]);
    }
  }

  lemma {:induction false} FlatLevel(es: seq<Event>)
    requires forall k :: 0 <= k < |es| ==> Delta(es[k]) == 0
    ensures Level(es) == 0
    decreases |es|
  {
    if es != [] {
      FlatLevel(es[..|es| - 1]);
    }
  }

  lemma WrapBalanced(name: string, ns: string, body: seq<Event>)
    requires Balanced(body)
    ensures Balanced([StartElement(None, name, Some(ns))] + body + [EndElement])
  {
    var s := [StartElement(None, name, Some(ns))];
    assert s[..0] == [] && [EndElement][..0] == [];
    LevelConcat(s, body);
    LowConcat(s, body);
    LevelConcat(s + body, [EndElement]);
    LowConcat(s + body, [EndElement]);
  }

  lemma ElementBalanced(es: seq<Event>, name: string, ns: string)
    requires IsElement(es, name, ns)
    ensures Balanced(es)
  {
    WrapBalanced(name, ns, es[1..|es| - 1]);
    assert es == [es[0]] + es[1..|es| - 1] + [EndElement];
  }

  /**
   * The events written between two states of one run: nesting closes up and the
   * `z:Id` tokens are exactly the counter values handed out in between.
   */
  ghost predicate Wrote(t0: seq<Event>, id0: nat, t1: seq<Event>, id1: nat)
  {
    t0 <= t1 && id0 <= id1 && Balanced(t1[|t0|..]) && Tokens(t1[|t0|..]) == IdRange(id0, id1)
  }

  lemma WroteNothing(t: seq<Event>, id: nat)
    ensures Wrote(t, id, t, id)
  {
    assert t[|t|..] == [];
  }

  lemma WroteTrans(t0: seq<Event>, id0: nat, t1: seq<Event>, id1: nat, t2: seq<Event>, id2: nat)
    requires Wrote(t0, id0, t1, id1) && Wrote(t1, id1, t2, id2)
    ensures Wrote(t0, id0, t2, id2)
  {
    assert t2[|t0|..] == t1[|t0|..] + t2[|t1|..];
    BalancedConcat(t1[|t0|..], t2[|t1|..]);
    TokensConcat(t1[|t0|..], t2[|t1|..]);
    IdRangeSplit(id0, id1, id2);
  }

  /** Events that open no element and carry no `z:Id`. */
  ghost predicate Flat(es: seq<Event>)
  {
    forall k :: 0 <= k < |es| ==> Delta(es[k]) == 0 && !IsIdEvent(es[k])
  }

  lemma {:induction false} FlatTokens(es: seq<Event>)
    requires Flat(es)
    ensures Tokens(es) == []
    decreases |es|
  {
    if es != [] {
      FlatTokens(es[..|es| - 1]);
    }
  }

  lemma WroteFlat(t: seq<Event>, id: nat, es: seq<Event>)
    requires Flat(es)
    ensures Wrote(t, id, t + es, id)
  {
    assert (t + es)[|t|..] == es;
    FlatBalanced(es);
    FlatTokens(es);
  }

  lemma WroteId(t: seq<Event>, id: nat)
    ensures Wrote(t, id, t + [IdAttribute(id + 1)], id + 1)
  {
    var es := [IdAttribute(id + 1)];
    assert (t + es)[|t|..] == es;
    FlatBalanced(es);
    assert es[..0] == [];
  }

  /** Closing an element opened at the end of `t0` makes it one element, written between t0 and the end. */
  lemma CloseElement(t0: seq<Event>, id0: nat, t1: seq<Event>, id1: nat, name: string, ns: string)
    requires Wrote(t0 + [StartElement(None, name, Some(ns))], id0, t1, id1)
    ensures Wrote(t0, id0, t1 + [EndElement], id1)
    ensures IsElement((t1 + [EndElement])[|t0|..], name, ns)
  {
    var s := StartElement(None, name, Some(ns));
    var body := t1[|t0| + 1..];
    var es := (t1 + [EndElement])[|t0|..];
    assert es == [s] + body + [EndElement];
    assert es[1..|es| - 1] == body;
    WrapBalanced(name, ns, body);
    TokensConcat([s] + body, [EndElement]);
    TokensConcat([s], body);
    assert [s][..0] == [] && [EndElement][..0] == [];
    assert Tokens(es) == Tokens(body);
    assert t0 <= t1 + [EndElement] by {
      assert t0 <= t0 + [s];
    }
  }

  /** A fresh `z:Id` followed by events that open nothing and carry no other id. */
  lemma WroteHeader(t: seq<Event>, id: nat, es: seq<Event>)
    requires |es| > 0 && es[0] == IdAttribute(id + 1) && Flat(es[1..])
    ensures Wrote(t, id, t + es, id + 1)
  {
    WroteId(t, id);
    WroteFlat(t + [es[0]], id + 1, es[1..]);
    assert t + [es[0]] + es[1..] == t + es;
    WroteTrans(t, id, t + [es[0]], id + 1, t + es, id + 1);
  }

  /** CloseElement for content written in two steps. */
  lemma CloseAfter(t0: seq<Event>, id0: nat, t1: seq<Event>, id1: nat, t2: seq<Event>, id2: nat, name: string, ns: string)
    requires Wrote(t0 + [StartElement(None, name, Some(ns))], id0, t1, id1) && Wrote(t1, id1, t2, id2)
    ensures Wrote(t0, id0, t2 + [EndElement], id2)
    ensures IsElement((t2 + [EndElement])[|t0|..], name, ns)
  {
    WroteTrans(t0 + [StartElement(None, name, Some(ns))], id0, t1, id1, t2, id2);
    CloseElement(t0, id0, t2, id2, name, ns);
  }

  lemma NilIsElement(t: seq<Event>, id: nat, name: string)
    ensures Wrote(t, id, t + NilElement(name), id)
    ensures IsElement(NilElement(name), name, Namespace)
  {
    var n := NilElement(name);
    var s := StartElement(None, name, Some(Namespace));
    var a := n[1..2];
    assert n == [s] + a + [EndElement];
    FlatBalanced(a);
    WrapBalanced(name, Namespace, a);
    assert (t + n)[|t|..] == n;
    TokensConcat([s] + a, [EndElement]);
    TokensConcat([s], a);
    FlatTokens(a);
    assert [s][..0] == [] && [EndElement][..0] == [];
  }
}
