/**
 * Member collection: AddSorterMembers walks the runtime type and then each base type,
 * adding every included property and field to a list sorted by name; a name already
 * in the list is not added again, so the most-derived declaration wins.
 */
module Members {
  import opened XmlEvents
  import opened Types

  /** One entry of the sorted list: its key, and the member's declared type and current value. */
  datatype Member = Member(name: string, memberType: TypeDesc, value: Value)

  /** Ordinal order of strings: character by character, and a proper prefix first. */
  predicate Less(a: string, b: string)
    decreases |a|
  {
    if |a| == 0 then |b| > 0
    else if |b| == 0 then false
    else if a[0] != b[0] then a[0] < b[0]
    else Less(a[1..], b[1..])
  }

  lemma {:induction false} LessIrreflexive(a: string)
    ensures !Less(a, a)
    decreases |a|
  {
    if |a| > 0 {
      LessIrreflexive(a[1..]);
    }
  }

  lemma {:induction false} LessTransitive(a: string, b: string, c: string)
    requires Less(a, b) && Less(b, c)
    ensures Less(a, c)
    decreases |a|
  {
    if |a| > 0 && a[0] == b[0] && b[0] == c[0] {
      LessTransitive(a[1..], b[1..], c[1..]);
    }
  }

  lemma {:induction false} LessTotal(a: string, b: string)
    requires a != b
    ensures Less(a, b) || Less(b, a)
    decreases |a|
  {
    if |a| > 0 && |b| > 0 && a[0] == b[0] {
      assert a == [a[0]] + a[1..] && b == [b[0]] + b[1..];
      LessTotal(a[1..], b[1..]);
    }
  }

  /** Each entry's name is below the next one's. */
  predicate Sorted(es: seq<Member>)
  {
    |es| <= 1 || (Less(es[0].name, es[1].name) && Sorted(es[1..]))
  }

  /** Strictly increasing names: ordered, and so no name twice. */
  predicate StrictlyOrdered(es: seq<Member>)
  {
    forall i, j :: 0 <= i < j < |es| ==> Less(es[i].name, es[j].name)
  }

  lemma {:induction false} SortedOrdered(es: seq<Member>)
    requires Sorted(es)
    ensures StrictlyOrdered(es)
    decreases |es|
  {
    if |es| > 1 {
      SortedOrdered(es[1..]);
      forall i, j | 0 <= i < j < |es|
        ensures Less(es[i].name, es[j].name)
      {
        if i == 0 && j > 1 {
          assert es[1..][0] == es[1] && es[1..][j - 1] == es[j];
          LessTransitive(es[0].name, es[1].name, es[j].name);
        } else if i > 0 {
          assert es[1..][i - 1] == es[i] && es[1..][j - 1] == es[j];
        }
      }
    }
  }

  function Names(es: seq<Member>): set<string>
  {
    set m | m in es :: m.name
  }

  /** SortedList.Add of a new key: the entry goes before the first larger name. */
  function Insert(es: seq<Member>, m: Member): (r: seq<Member>)
    ensures |r| == |es| + 1
    ensures forall x :: x in r <==> x in es || x == m
  {
    if es == [] || Less(m.name, es[0].name) then [m] + es
    else [es[0]] + Insert(es[1..], m)
  }

  lemma {:induction false} InsertSorted(es: seq<Member>, m: Member)
    requires Sorted(es) && m.name !in Names(es)
    ensures Sorted(Insert(es, m))
    decreases |es|
  {
    if es != [] && !Less(m.name, es[0].name) {
      assert es[0] in es;
      LessTotal(m.name, es[0].name);
      assert Names(es[1..]) <= Names(es) by {
        forall n | n in Names(es[1..]) ensures n in Names(es) {
          var x :| x in es[1..] && x.name == n;
          assert x in es;
        }
      }
      InsertSorted(es[1..], m);
      var rest := Insert(es[1..], m);
      if |es| > 1 && !Less(m.name, es[1].name) {
        assert rest[0] == es[1];
      } else {
        assert rest[0] == m;
      }
    }
  }

  /**
   * ContainsKey, then Add when absent: the name is in the list afterwards, and an existing
   * name keeps its entry; a sorted list stays sorted.
   */
  function AddIfAbsent(es: seq<Member>, m: Member): (r: seq<Member>)
    ensures Names(r) == Names(es) + {m.name}
    ensures forall x :: x in r <==> x in es || (x == m && m.name !in Names(es))
    ensures Sorted(es) ==> Sorted(r)
  {
    if m.name in Names(es) then es
    else
      if Sorted(es) then InsertSorted(es, m); Insert(es, m)
      else Insert(es, m)
  }

  /** The list after offering each candidate in turn. */
  function InsertAll(es: seq<Member>, c: seq<Member>): seq<Member>
  {
    if c == [] then es else AddIfAbsent(InsertAll(es, c[..|c| - 1]), c[|c| - 1])
  }

  lemma InsertAllSnoc(es: seq<Member>, c: seq<Member>, x: Member)
    ensures InsertAll(es, c + [x]) == AddIfAbsent(InsertAll(es, c), x)
  {
    assert (c + [x])[..|c|] == c;
  }

  lemma {:induction false} InsertAllSorted(es: seq<Member>, c: seq<Member>)
    requires Sorted(es)
    ensures Sorted(InsertAll(es, c))
    decreases |c|
  {
    if c != [] {
      InsertAllSorted(es, c[..|c| - 1]);
      var p := InsertAll(es, c[..|c| - 1]);
      if c[|c| - 1].name !in Names(p) {
        InsertSorted(p, c[|c| - 1]);
      }
    }
  }

  lemma {:induction false} InsertAllConcat(es: seq<Member>, a: seq<Member>, b: seq<Member>)
    ensures InsertAll(es, a + b) == InsertAll(InsertAll(es, a), b)
    decreases |b|
  {
    if b == [] {
      assert a + b == a;
    } else {
      var b' := b[..|b| - 1];
      assert (a + b)[..|a + b| - 1] == a + b';
      InsertAllConcat(es, a, b');
    }
  }

  /** Reference definition: the candidates in walk order, keeping only the first of each name. */
  function Dedup(c: seq<Member>): seq<Member>
  {
    if c == [] then []
    else
      var d := Dedup(c[..|c| - 1]);
      if c[|c| - 1].name in Names(d) then d else d + [c[|c| - 1]]
  }

  lemma {:induction false} DedupNames(c: seq<Member>)
    ensures Names(Dedup(c)) == Names(c)
    decreases |c|
  {
    if c != [] {
      var c' := c[..|c| - 1];
      DedupNames(c');
      assert c == c' + [c[|c| - 1]];
      assert Names(c) == Names(c') + {c[|c| - 1].name};
    }
  }

  /** Offering candidates to an empty list keeps exactly the first candidate of each name. */
  lemma {:induction false} InsertAllDedup(c: seq<Member>)
    ensures forall x :: x in InsertAll([], c) <==> x in Dedup(c)
    decreases |c|
  {
    if c != [] {
      var c' := c[..|c| - 1];
      var x := c[|c| - 1];
      InsertAllDedup(c');
      var p, d := InsertAll([], c'), Dedup(c');
      assert Names(p) == Names(d) by {
        forall n ensures n in Names(p) <==> n in Names(d) {
          if n in Names(p) { var y :| y in p && y.name == n; assert y in d; }
          if n in Names(d) { var y :| y in d && y.name == n; assert y in p; }
        }
      }
    }
  }

  /**
   * The most-derived declaration wins: when the walk meets a name in the earlier
   * part `a` (the runtime type before its bases), the kept entry comes from `a`.
   */
  lemma {:induction false} DerivedWins(a: seq<Member>, b: seq<Member>, x: Member)
    requires x in Dedup(a + b) && x.name in Names(a)
    ensures x in Dedup(a)
    decreases |b|
  {
    if b == [] {
      assert a + b == a;
    } else {
      var b' := b[..|b| - 1];
      assert (a + b)[..|a + b| - 1] == a + b';
      DedupNames(a + b');
      assert x.name in Names(a + b') by {
        var y :| y in a && y.name == x.name;
        assert y in a + b';
      }
      assert x in Dedup(a + b');
      DerivedWins(a, b', x);
    }
  }

  /** A property GetProperties(flags) returns and the loop keeps: public accessors, no parameters, filter met. */
  predicate PropertyIncluded(m: MemberInfo, filter: bool, nonPublic: bool)
  {
    m.Property? && (m.isPublic || nonPublic) && m.hasPublicSetter && m.hasPublicGetter && m.getterParameters == 0
    && (!filter || m.isDataMember) && m.indexParameters == 0
  }

  /**
   * A property GetProperties(flags) returns whose public setter makes the loop ask for the
   * parameters of the public getter, which is missing: a NullReferenceException.
   */
  predicate PropertyThrows(m: MemberInfo, nonPublic: bool)
  {
    m.Property? && (m.isPublic || nonPublic) && m.hasPublicSetter && !m.hasPublicGetter
  }

  /** The loop over one type's properties runs to its end. */
  predicate PropertiesReadable(ms: seq<MemberInfo>, nonPublic: bool)
  {
    forall k :: 0 <= k < |ms| ==> !PropertyThrows(ms[k], nonPublic)
  }

  /** The walk down the base types runs to its end: no level holds a throwing property. */
  predicate ChainReadable(t: TypeDesc, nonPublic: bool)
    decreases t
  {
    PropertiesReadable(t.members, nonPublic)
    && match t.baseType
       case None => true
       case Some(b) => ChainReadable(b, nonPublic)
  }

  /** A field GetFields(flags) returns that meets the filter. */
  predicate FieldIncluded(m: MemberInfo, filter: bool, nonPublic: bool)
  {
    m.Field? && (m.isPublic || nonPublic) && (!filter || m.isDataMember)
  }

  function PropertyEntries(ms: seq<MemberInfo>, vals: seq<Value>, filter: bool, nonPublic: bool): seq<Member>
    requires |ms| == |vals|
  {
    if ms == [] then []
    else
      var m := ms[|ms| - 1];
      PropertyEntries(ms[..|ms| - 1], vals[..|vals| - 1], filter, nonPublic)
      + if PropertyIncluded(m, filter, nonPublic) then [Member(m.name, m.memberType, vals[|vals| - 1])] else []
  }

  function FieldEntries(ms: seq<MemberInfo>, vals: seq<Value>, filter: bool, nonPublic: bool): seq<Member>
    requires |ms| == |vals|
  {
    if ms == [] then []
    else
      var m := ms[|ms| - 1];
      FieldEntries(ms[..|ms| - 1], vals[..|vals| - 1], filter, nonPublic)
      + if FieldIncluded(m, filter, nonPublic) then [Member(m.name, m.memberType, vals[|vals| - 1])] else []
  }

  lemma PropertyStep(e0: seq<Member>, ms: seq<MemberInfo>, vals: seq<Value>, i: nat, filter: bool, nonPublic: bool)
    requires i < |ms| == |vals|
    ensures var c := InsertAll(e0, PropertyEntries(ms[..i], vals[..i], filter, nonPublic));
      InsertAll(e0, PropertyEntries(ms[..i + 1], vals[..i + 1], filter, nonPublic))
      == if PropertyIncluded(ms[i], filter, nonPublic) then AddIfAbsent(c, Member(ms[i].name, ms[i].memberType, vals[i])) else c
  {
    assert ms[..i + 1][..i] == ms[..i] && vals[..i + 1][..i] == vals[..i];
    var c := PropertyEntries(ms[..i], vals[..i], filter, nonPublic);
    if PropertyIncluded(ms[i], filter, nonPublic) {
      InsertAllSnoc(e0, c, Member(ms[i].name, ms[i].memberType, vals[i]));
    } else {
      assert c + [] == c;
    }
  }

  lemma FieldStep(e0: seq<Member>, ms: seq<MemberInfo>, vals: seq<Value>, i: nat, filter: bool, nonPublic: bool)
    requires i < |ms| == |vals|
    ensures var c := InsertAll(e0, FieldEntries(ms[..i], vals[..i], filter, nonPublic));
      InsertAll(e0, FieldEntries(ms[..i + 1], vals[..i + 1], filter, nonPublic))
      == if FieldIncluded(ms[i], filter, nonPublic) then AddIfAbsent(c, Member(ms[i].name, ms[i].memberType, vals[i])) else c
  {
    assert ms[..i + 1][..i] == ms[..i] && vals[..i + 1][..i] == vals[..i];
    var c := FieldEntries(ms[..i], vals[..i], filter, nonPublic);
    if FieldIncluded(ms[i], filter, nonPublic) {
      InsertAllSnoc(e0, c, Member(ms[i].name, ms[i].memberType, vals[i]));
    } else {
      assert c + [] == c;
    }
  }

  /** The list after the first `i` iterations of the loop over the properties. */
  function OfferedProperties(e0: seq<Member>, ms: seq<MemberInfo>, vals: seq<Value>, i: nat, filter: bool, nonPublic: bool): seq<Member>
    requires i <= |ms| == |vals|
  {
    if i == 0 then e0
    else
      var c := OfferedProperties(e0, ms, vals, i - 1, filter, nonPublic);
      if PropertyIncluded(ms[i - 1], filter, nonPublic) then AddIfAbsent(c, Member(ms[i - 1].name, ms[i - 1].memberType, vals[i - 1])) else c
  }

  lemma {:induction false} PropertiesOffered(e0: seq<Member>, ms: seq<MemberInfo>, vals: seq<Value>, i: nat, filter: bool, nonPublic: bool)
    requires i <= |ms| == |vals|
    ensures OfferedProperties(e0, ms, vals, i, filter, nonPublic) == InsertAll(e0, PropertyEntries(ms[..i], vals[..i], filter, nonPublic))
  {
    if i > 0 {
      PropertiesOffered(e0, ms, vals, i - 1, filter, nonPublic);
      PropertyStep(e0, ms, vals, i - 1, filter, nonPublic);
    }
  }

  /** The list after the first `i` iterations of the loop over the fields. */
  function OfferedFields(e0: seq<Member>, ms: seq<MemberInfo>, vals: seq<Value>, i: nat, filter: bool, nonPublic: bool): seq<Member>
    requires i <= |ms| == |vals|
  {
    if i == 0 then e0
    else
      var c := OfferedFields(e0, ms, vals, i - 1, filter, nonPublic);
      if FieldIncluded(ms[i - 1], filter, nonPublic) then AddIfAbsent(c, Member(ms[i - 1].name, ms[i - 1].memberType, vals[i - 1])) else c
  }

  lemma {:induction false} FieldsOffered(e0: seq<Member>, ms: seq<MemberInfo>, vals: seq<Value>, i: nat, filter: bool, nonPublic: bool)
    requires i <= |ms| == |vals|
    ensures OfferedFields(e0, ms, vals, i, filter, nonPublic) == InsertAll(e0, FieldEntries(ms[..i], vals[..i], filter, nonPublic))
  {
    if i > 0 {
      FieldsOffered(e0, ms, vals, i - 1, filter, nonPublic);
      FieldStep(e0, ms, vals, i - 1, filter, nonPublic);
    }
  }

  /** The entries one level of the walk offers: the type's own properties, then its own fields. */
  function OwnEntries(t: TypeDesc, own: seq<Value>, filter: bool, nonPublic: bool): seq<Member>
    requires |own| == |t.members|
  {
    PropertyEntries(t.members, own, filter, nonPublic) + FieldEntries(t.members, own, filter, nonPublic)
  }

  /**
   * The entries the walk offers, in order: the type's properties, its fields, then the
   * same for its base type and so on. `vals` are the object's values for these members.
   */
  function Candidates(t: TypeDesc, vals: seq<Value>, filter: bool, nonPublic: bool): seq<Member>
    requires |vals| == ChainSize(t)
    decreases t
  {
    OwnEntries(t, vals[..|t.members|], filter, nonPublic)
    + match t.baseType
      case None => []
      case Some(b) => Candidates(b, vals[|t.members|..], filter, nonPublic)
  }

  lemma {:induction false} PropertyValues(ms: seq<MemberInfo>, vals: seq<Value>, filter: bool, nonPublic: bool)
    requires |ms| == |vals|
    ensures forall x :: x in PropertyEntries(ms, vals, filter, nonPublic) ==> x.value in vals
    decreases |ms|
  {
    if ms != [] {
      PropertyValues(ms[..|ms| - 1], vals[..|vals| - 1], filter, nonPublic);
      assert forall v :: v in vals[..|vals| - 1] ==> v in vals;
    }
  }

  lemma {:induction false} FieldValues(ms: seq<MemberInfo>, vals: seq<Value>, filter: bool, nonPublic: bool)
    requires |ms| == |vals|
    ensures forall x :: x in FieldEntries(ms, vals, filter, nonPublic) ==> x.value in vals
    decreases |ms|
  {
    if ms != [] {
      FieldValues(ms[..|ms| - 1], vals[..|vals| - 1], filter, nonPublic);
      assert forall v :: v in vals[..|vals| - 1] ==> v in vals;
    }
  }

  /** Every collected value is one of the object's own member values. */
  lemma {:induction false} CandidateValues(t: TypeDesc, vals: seq<Value>, filter: bool, nonPublic: bool)
    requires |vals| == ChainSize(t)
    ensures forall x :: x in Candidates(t, vals, filter, nonPublic) ==> x.value in vals
    decreases t
  {
    var n := |t.members|;
    PropertyValues(t.members, vals[..n], filter, nonPublic);
    FieldValues(t.members, vals[..n], filter, nonPublic);
    assert forall v :: v in vals[..n] ==> v in vals;
    if t.baseType.Some? {
      CandidateValues(t.baseType.value, vals[n..], filter, nonPublic);
      assert forall v :: v in vals[n..] ==> v in vals;
    }
  }

  /** SortedList<string, (Type, object)> keyed by member name, ordinal order. */
  class MemberList {
    var entries: seq<Member>

    constructor ()
      ensures entries == []
    {
      entries := [];
    }

    predicate ContainsKey(name: string)
      reads this
    {
      name in Names(entries)
    }

    method Add(m: Member)
      requires Sorted(entries) && m.name !in Names(entries)
      modifies this
      ensures entries == Insert(old(entries), m) && Sorted(entries)
    {
      InsertSorted(entries, m);
      entries := Insert(entries, m);
    }

    /** The source's `if (!list.ContainsKey(name)) list.Add(name, ...)`. */
    method Offer(m: Member)
      requires Sorted(entries)
      modifies this
      ensures entries == AddIfAbsent(old(entries), m) && Sorted(entries)
    {
      if !ContainsKey(m.name) {
        Add(m);
      }
    }
  }

  /**
   * AddSorterMembers: offers the included members of `t` and of every base type to `list`.
   * `offset` is where the values of `t`'s members start among the object's values. It fails
   * (the source throws) exactly when some level has a property with a public setter and no
   * public getter; the list then keeps what was offered before that property.
   */
  method AddSorterMembers(list: MemberList, graph: Value, t: TypeDesc, filter: bool, nonPublic: bool, offset: nat)
    returns (ok: bool)
    requires graph != Null && offset + ChainSize(t) == |Slots(graph)|
    requires Sorted(list.entries)
    modifies list
    ensures Sorted(list.entries)
    ensures ok <==> ChainReadable(t, nonPublic)
    ensures ok ==> list.entries == OfferedWalk(old(list.entries), t, Slots(graph)[offset..], filter, nonPublic)
    decreases t
  {
    ghost var e0 := list.entries;
    var n := |t.members|;
    ghost var vals := Slots(graph)[offset..];
    assert vals[..n] == Slots(graph)[offset..offset + n];
    ok := AddProperties(list, graph, t, filter, nonPublic, offset);
    if !ok {
      return;
    }
    AddFields(list, graph, t, filter, nonPublic, offset);
    if t.baseType.Some? {
      assert vals[n..] == Slots(graph)[offset + n..];
      ok := AddSorterMembers(list, graph, t.baseType.value, filter, nonPublic, offset + n);
    }
  }

  /** The loop over type.GetProperties(flags) in AddSorterMembers. */
  method AddProperties(list: MemberList, graph: Value, t: TypeDesc, filter: bool, nonPublic: bool, offset: nat)
    returns (ok: bool)
    requires graph != Null && offset + |t.members| <= |Slots(graph)|
    requires Sorted(list.entries)
    modifies list
    ensures Sorted(list.entries)
    ensures ok <==> PropertiesReadable(t.members, nonPublic)
    ensures ok ==> list.entries == OfferedProperties(old(list.entries), t.members, Slots(graph)[offset..offset + |t.members|],
                                               |t.members|, filter, nonPublic)
  {
    var n := |t.members|;
    ghost var level := Slots(graph)[offset..offset + n];
    ghost var e0 := list.entries;
    var i := 0;
    while i < n
      invariant 0 <= i <= n
      invariant Sorted(list.entries)
      invariant forall k :: 0 <= k < i ==> !PropertyThrows(t.members[k], nonPublic)
      invariant list.entries == OfferedProperties(e0, t.members, level, i, filter, nonPublic)
    {
      var p := t.members[i];
      if p.Property? && (p.isPublic || nonPublic) {
        if p.hasPublicSetter && !p.hasPublicGetter {
          // GetGetMethod() is null and its GetParameters() throws
          return false;
        }
        if p.hasPublicSetter && p.getterParameters == 0 && (!filter || p.isDataMember) && p.indexParameters == 0 {
          var value := Slots(graph)[offset + i];
          list.Offer(Member(p.name, p.memberType, value));
        }
      }
      i := i + 1;
    }
    ok := true;
  }

  /** The loop over type.GetFields(flags) in AddSorterMembers. */
  method AddFields(list: MemberList, graph: Value, t: TypeDesc, filter: bool, nonPublic: bool, offset: nat)
    requires graph != Null && offset + |t.members| <= |Slots(graph)|
    requires Sorted(list.entries)
    modifies list
    ensures Sorted(list.entries)
    ensures list.entries == OfferedFields(old(list.entries), t.members, Slots(graph)[offset..offset + |t.members|],
                                        |t.members|, filter, nonPublic)
  {
    var n := |t.members|;
    ghost var level := Slots(graph)[offset..offset + n];
    ghost var e0 := list.entries;
    var i := 0;
    while i < n
      invariant 0 <= i <= n
      invariant Sorted(list.entries)
      invariant list.entries == OfferedFields(e0, t.members, level, i, filter, nonPublic)
    {
      var f := t.members[i];
      if f.Field? && (f.isPublic || nonPublic) {
        if !filter || f.isDataMember {
          var value := Slots(graph)[offset + i];
          list.Offer(Member(f.name, f.memberType, value));
        }
      }
      i := i + 1;
    }
  }

  /** The list after both loops of one level of the walk. */
  function OfferedOwn(e0: seq<Member>, t: TypeDesc, own: seq<Value>, filter: bool, nonPublic: bool): seq<Member>
    requires |own| == |t.members|
  {
    var n := |t.members|;
    OfferedFields(OfferedProperties(e0, t.members, own, n, filter, nonPublic), t.members, own, n, filter, nonPublic)
  }

  lemma OwnOffered(e0: seq<Member>, t: TypeDesc, own: seq<Value>, filter: bool, nonPublic: bool)
    requires |own| == |t.members|
    ensures OfferedOwn(e0, t, own, filter, nonPublic) == InsertAll(e0, OwnEntries(t, own, filter, nonPublic))
  {
    var n := |t.members|;
    assert t.members[..n] == t.members && own[..n] == own;
    PropertiesOffered(e0, t.members, own, n, filter, nonPublic);
    var e1 := OfferedProperties(e0, t.members, own, n, filter, nonPublic);
    FieldsOffered(e1, t.members, own, n, filter, nonPublic);
    InsertAllConcat(e0, PropertyEntries(t.members, own, filter, nonPublic), FieldEntries(t.members, own, filter, nonPublic));
  }

  /** The list after the walk from `t` down its base types, level by level. */
  function OfferedWalk(e0: seq<Member>, t: TypeDesc, vals: seq<Value>, filter: bool, nonPublic: bool): seq<Member>
    requires |vals| == ChainSize(t)
    decreases t
  {
    var n := |t.members|;
    var e1 := OfferedOwn(e0, t, vals[..n], filter, nonPublic);
    match t.baseType
    case None => e1
    case Some(b) => OfferedWalk(e1, b, vals[n..], filter, nonPublic)
  }

  /** Offering a type's candidates is offering its own members, then its base's candidates. */
  lemma {:induction false} WalkOffered(e0: seq<Member>, t: TypeDesc, vals: seq<Value>, filter: bool, nonPublic: bool)
    requires |vals| == ChainSize(t)
    ensures OfferedWalk(e0, t, vals, filter, nonPublic) == InsertAll(e0, Candidates(t, vals, filter, nonPublic))
    decreases t
  {
    var n := |t.members|;
    var mine := OwnEntries(t, vals[..n], filter, nonPublic);
    OwnOffered(e0, t, vals[..n], filter, nonPublic);
    var e1 := OfferedOwn(e0, t, vals[..n], filter, nonPublic);
    match t.baseType
    case None =>
      assert mine + [] == mine;
    case Some(b) =>
      WalkOffered(e1, b, vals[n..], filter, nonPublic);
      InsertAllConcat(e0, mine, Candidates(b, vals[n..], filter, nonPublic));
  }

  /**
   * GetSortedMembers: the members of the value's runtime type and its bases, strictly
   * ordered by name, holding for each name the first declaration the walk meets; it fails
   * exactly when the walk meets a property with a public setter and no public getter.
   */
  method GetSortedMembers(graph: Value, filter: bool, nonPublic: bool) returns (ok: bool, members: seq<Member>)
    requires graph != Null && Typed(graph)
    ensures ok <==> ChainReadable(RuntimeType(graph), nonPublic)
    ensures ok ==> StrictlyOrdered(members)
    ensures ok ==> forall x :: x in members <==> x in Dedup(Candidates(RuntimeType(graph), Slots(graph), filter, nonPublic))
    ensures ok ==> forall x :: x in members ==> x.value in Slots(graph)
  {
    var list := new MemberList();
    TypedSlots(graph);
    ok := AddSorterMembers(list, graph, RuntimeType(graph), filter, nonPublic, 0);
    members := list.entries;
    if !ok {
      return;
    }
    ghost var c := Candidates(RuntimeType(graph), Slots(graph), filter, nonPublic);
    assert Slots(graph)[0..] == Slots(graph);
    SortedOrdered(members);
    WalkOffered([], RuntimeType(graph), Slots(graph), filter, nonPublic);
    InsertAllDedup(c);
    CandidateValues(RuntimeType(graph), Slots(graph), filter, nonPublic);
    DedupSubset(c);
  }

  lemma {:induction false} DedupSubset(c: seq<Member>)
    ensures forall x :: x in Dedup(c) ==> x in c
    decreases |c|
  {
    if c != [] {
      DedupSubset(c[..|c| - 1]);
      assert forall x :: x in c[..|c| - 1] ==> x in c;
    }
  }
}
