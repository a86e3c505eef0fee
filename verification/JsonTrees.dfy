// The tree of a value (JsonWriter.Tree): what is read from its text, and when that can be read at all.
module JsonTrees {
  import opened Wire
  import opened JsonWriter
  import opened JsonStructs
  import J = Json

  // ---------------------------------------------------------------------------
  // Members and entries by their places
  // ---------------------------------------------------------------------------

  // The vars from i on that are written.
  ghost function Written(v: Value, i: nat): (idx: seq<nat>)
    requires v.Object?
    decreases |v.vars| - i
  {
    if |v.vars| <= i then [] else if Falsy(v.vars[i]) then Written(v, i + 1) else [i] + Written(v, i + 1)
  }

  lemma {:induction false} WrittenAll(v: Value, i: nat)
    requires v.Object?
    ensures forall a :: 0 <= a < |Written(v, i)| ==>
              i <= Written(v, i)[a] < |v.vars| && !Falsy(v.vars[Written(v, i)[a]])
    ensures forall k: nat :: i <= k < |v.vars| && !Falsy(v.vars[k]) ==> k in Written(v, i)
    ensures forall a, b :: 0 <= a < b < |Written(v, i)| ==> Written(v, i)[a] != Written(v, i)[b]
    decreases |v.vars| - i
  {
    if i < |v.vars| {
      WrittenAll(v, i + 1);
    }
  }

  ghost predicate MemberOf(C: Classes, v: Value, written: bool, member: J.Member, k: nat)
    requires v.Object? && v.cls in C && |C[v.cls]| == |v.vars|
  {
    k < |v.vars| && !Falsy(v.vars[k]) && member == FieldMember(C, C[v.cls][k], v.vars[k], written)
  }

  lemma {:induction false} MembersLength(C: Classes, v: Value, written: bool, i: nat)
    requires v.Object? && v.cls in C && |C[v.cls]| == |v.vars|
    ensures |Members(C, v, written, i)| == |Written(v, i)|
    decreases |v.vars| - i
  {
    if i < |v.vars| {
      MembersLength(C, v, written, i + 1);
      if Falsy(v.vars[i]) {
        NoMember(C, v, written, i);
      } else {
        MemberFirst(C, v, written, i);
        OneMore(FieldMember(C, C[v.cls][i], v.vars[i], written), i, Members(C, v, written, i + 1), Written(v, i + 1));
      }
    }
  }

  lemma {:induction false} OneMore(member: J.Member, k: nat, members: seq<J.Member>, idx: seq<nat>)
    requires |members| == |idx|
    ensures |[member] + members| == |[k] + idx|
  {
  }

  lemma {:induction false} MemberAt(C: Classes, v: Value, written: bool, i: nat, a: nat)
    requires v.Object? && v.cls in C && |C[v.cls]| == |v.vars|
    requires a < |Written(v, i)| == |Members(C, v, written, i)|
    ensures MemberOf(C, v, written, Members(C, v, written, i)[a], Written(v, i)[a])
    decreases |v.vars| - i
  {
    if Falsy(v.vars[i]) {
      NoMember(C, v, written, i);
      MemberAt(C, v, written, i + 1, a);
    } else {
      MemberFirst(C, v, written, i);
      if a > 0 {
        MemberAt(C, v, written, i + 1, a - 1);
      }
    }
  }

  lemma {:induction false} MemberFirst(C: Classes, v: Value, written: bool, i: nat)
    requires v.Object? && v.cls in C && |C[v.cls]| == |v.vars| && i < |v.vars| && !Falsy(v.vars[i])
    ensures Members(C, v, written, i)
         == [FieldMember(C, C[v.cls][i], v.vars[i], written)] + Members(C, v, written, i + 1)
    ensures Written(v, i) == [i] + Written(v, i + 1)
  {
  }

  lemma {:induction false} EntryFirst(C: Classes, val: Type, v: Value, written: bool, i: nat)
    requires v.Pairs? && i < |v.pairs|
    ensures Entries(C, val, v, written, i)
         == [J.Member(KeyName(v.pairs[i].0), Tree(C, val, v.pairs[i].1, written))] + Entries(C, val, v, written, i + 1)
  {
  }

  lemma {:induction false} EntriesLength(C: Classes, val: Type, v: Value, written: bool, i: nat)
    requires v.Pairs? && i <= |v.pairs|
    ensures |Entries(C, val, v, written, i)| == |v.pairs| - i
    decreases |v.pairs| - i
  {
    if i < |v.pairs| {
      EntryFirst(C, val, v, written, i);
      EntriesLength(C, val, v, written, i + 1);
    }
  }

  lemma {:induction false} EntryAt(C: Classes, val: Type, v: Value, written: bool, i: nat, k: nat)
    requires v.Pairs? && i <= k < |v.pairs| && |Entries(C, val, v, written, i)| == |v.pairs| - i
    ensures Entries(C, val, v, written, i)[k - i]
         == J.Member(KeyName(v.pairs[k].0), Tree(C, val, v.pairs[k].1, written))
    decreases |v.pairs| - i
  {
    EntryFirst(C, val, v, written, i);
    if i < k {
      EntryAt(C, val, v, written, i + 1, k);
    }
  }

  lemma {:induction false} ElementFirst(C: Classes, elem: Type, v: Value, written: bool, i: nat)
    requires v.Items? && i < |v.items|
    ensures Elements(C, elem, v, written, i)
         == [Tree(C, elem, v.items[i], written)] + Elements(C, elem, v, written, i + 1)
  {
  }

  lemma {:induction false} ElementsLength(C: Classes, elem: Type, v: Value, written: bool, i: nat)
    requires v.Items? && i <= |v.items|
    ensures |Elements(C, elem, v, written, i)| == |v.items| - i
    decreases |v.items| - i
  {
    if i < |v.items| {
      ElementFirst(C, elem, v, written, i);
      ElementsLength(C, elem, v, written, i + 1);
    }
  }

  lemma {:induction false} ElementAt(C: Classes, elem: Type, v: Value, written: bool, i: nat, k: nat)
    requires v.Items? && i <= k < |v.items| && |Elements(C, elem, v, written, i)| == |v.items| - i
    ensures Elements(C, elem, v, written, i)[k - i] == Tree(C, elem, v.items[k], written)
    decreases |v.items| - i
  {
    ElementFirst(C, elem, v, written, i);
    if i < k {
      ElementAt(C, elem, v, written, i + 1, k);
    }
  }

  // ---------------------------------------------------------------------------
  // Members with the same name
  // ---------------------------------------------------------------------------

  ghost predicate DistinctNames(members: seq<J.Member>) {
    forall a, b :: 0 <= a < b < |members| ==> members[a].name != members[b].name
  }

  lemma {:induction false} SetNewMember(members: seq<J.Member>, member: J.Member)
    requires forall a :: 0 <= a < |members| ==> members[a].name != member.name
    ensures J.SetMember(members, member) == members + [member]
  {
    if members != [] {
      SetNewMember(members[1..], member);
    }
  }

  lemma {:induction false} MergedDistinct(members: seq<J.Member>)
    requires DistinctNames(members)
    ensures J.Merged(members) == members
  {
    if members != [] {
      var n := |members| - 1;
      MergedDistinct(members[..n]);
      SetNewMember(members[..n], members[n]);
      assert members == members[..n] + [members[n]];
    }
  }

  lemma {:induction false} MergedEqual(members: seq<J.Member>)
    requires members != [] && forall a :: 0 <= a < |members| ==> members[a].name == members[0].name
    ensures J.Merged(members) == [members[|members| - 1]]
  {
    var n := |members| - 1;
    if n > 0 {
      MergedEqual(members[..n]);
    } else {
      assert J.Merged(members[..0]) == [];
    }
  }

  lemma {:induction false} MembersDistinct(C: Classes, v: Value)
    requires v.Object? && v.cls in C && |C[v.cls]| == |v.vars| && DistinctIds(C[v.cls])
    ensures DistinctNames(Members(C, v, false, 0))
  {
    var members, idx := Members(C, v, false, 0), Written(v, 0);
    WrittenAll(v, 0);
    MembersLength(C, v, false, 0);
    forall a, b | 0 <= a < b < |members|
      ensures members[a].name != members[b].name
    {
      MemberAt(C, v, false, 0, a);
      MemberAt(C, v, false, 0, b);
      J.ParseNumeral(C[v.cls][idx[a]].fid);
      J.ParseNumeral(C[v.cls][idx[b]].fid);
    }
  }

  // Boolean keys become one member, and others stay apart.
  lemma {:induction false} EntriesMerged(C: Classes, key: Type, val: Type, v: Value)
    requires WellTyped(C, Map(key, val), v)
    ensures J.Merged(Entries(C, val, v, false, 0)) == Entries(C, val, v, false, FirstRead(key, v))
  {
    if key == Scalar(BOOL) && v.pairs != [] {
      BooleansMerged(C, val, v);
    } else {
      EntryNames(C, val, v);
      OtherNames(C, key, val, v);
      MergedDistinct(Entries(C, val, v, false, 0));
    }
  }

  lemma {:induction false} EntryNames(C: Classes, val: Type, v: Value)
    requires v.Pairs?
    ensures |Entries(C, val, v, false, 0)| == |v.pairs|
    ensures forall k :: 0 <= k < |v.pairs| ==> Entries(C, val, v, false, 0)[k].name == KeyName(v.pairs[k].0)
  {
    EntriesLength(C, val, v, false, 0);
    forall k | 0 <= k < |v.pairs|
      ensures Entries(C, val, v, false, 0)[k].name == KeyName(v.pairs[k].0)
    {
      EntryAt(C, val, v, false, 0, k);
    }
  }

  lemma {:induction false} BooleansMerged(C: Classes, val: Type, v: Value)
    requires WellTyped(C, Map(Scalar(BOOL), val), v) && v.pairs != []
    ensures J.Merged(Entries(C, val, v, false, 0)) == Entries(C, val, v, false, |v.pairs| - 1)
  {
    EntryNames(C, val, v);
    BooleanNames(C, val, v);
    MergedEqual(Entries(C, val, v, false, 0));
    EntryAt(C, val, v, false, 0, |v.pairs| - 1);
    LastEntry(C, val, v);
  }

  lemma {:induction false} LastEntry(C: Classes, val: Type, v: Value)
    requires v.Pairs? && v.pairs != []
    ensures var n := |v.pairs| - 1;
            Entries(C, val, v, false, n) == [J.Member(KeyName(v.pairs[n].0), Tree(C, val, v.pairs[n].1, false))]
  {
    assert Entries(C, val, v, false, |v.pairs|) == [];
  }

  lemma {:induction false} BooleanNames(C: Classes, val: Type, v: Value)
    requires WellTyped(C, Map(Scalar(BOOL), val), v)
    ensures forall a :: 0 <= a < |v.pairs| ==> KeyName(v.pairs[a].0) == "1"
  {
    forall a | 0 <= a < |v.pairs|
      ensures KeyName(v.pairs[a].0) == "1"
    {
      assert WellTyped(C, Scalar(BOOL), v.pairs[a].0);
    }
  }

  lemma {:induction false} OtherNames(C: Classes, key: Type, val: Type, v: Value)
    requires WellTyped(C, Map(key, val), v) && (key == Scalar(BOOL) ==> v.pairs == [])
    ensures forall a, b :: 0 <= a < b < |v.pairs| ==> KeyName(v.pairs[a].0) != KeyName(v.pairs[b].0)
  {
    forall a, b | 0 <= a < b < |v.pairs|
      ensures KeyName(v.pairs[a].0) != KeyName(v.pairs[b].0)
    {
      assert WellTyped(C, key, v.pairs[a].0) && WellTyped(C, key, v.pairs[b].0);
    }
  }

  // ---------------------------------------------------------------------------
  // What is read from the text
  // ---------------------------------------------------------------------------

  lemma {:induction false} TreeSettled(C: Classes, t: Type, v: Value)
    requires WellTyped(C, t, v) && UniqueIds(C)
    ensures J.Settled(Tree(C, t, v, true)) == Tree(C, t, v, false)
    decreases v, 1, 0
  {
    match t
    case Scalar(_) =>
    case Struct(cls) =>
      MembersSettled(C, v, 0);
      MembersDistinct(C, v);
      MergedDistinct(Members(C, v, false, 0));
    case Map(key, val) =>
      EntriesSettled(C, key, val, v, 0);
      EntriesMerged(C, key, val, v);
      MapSettled(C, key, val, v);
    case List(elem) =>
      ElementsSettled(C, elem, v, 0);
      ListSettled(C, elem, v);
    case Set(elem) =>
      ElementsSettled(C, elem, v, 0);
      ListSettled(C, elem, v);
  }

  lemma {:induction false} MapSettled(C: Classes, key: Type, val: Type, v: Value)
    requires v.Pairs?
    requires J.Merged(J.SettledMembers(Entries(C, val, v, true, 0))) == Entries(C, val, v, false, FirstRead(key, v))
    ensures J.Settled(Tree(C, Map(key, val), v, true)) == Tree(C, Map(key, val), v, false)
  {
    SettledMap(J.Str(TypeName(Tag(key))), J.Str(TypeName(Tag(val))), J.Num(J.Decimal(|v.pairs|)),
               Entries(C, val, v, true, 0));
  }

  lemma {:induction false} ListSettled(C: Classes, elem: Type, v: Value)
    requires v.Items? && J.SettledElems(Elements(C, elem, v, true, 0)) == Elements(C, elem, v, false, 0)
    ensures J.Settled(Tree(C, List(elem), v, true)) == Tree(C, List(elem), v, false)
  {
    SettledList(J.Str(TypeName(Tag(elem))), J.Num(J.Decimal(|v.items|)), Elements(C, elem, v, true, 0));
  }

  lemma {:induction false} SettledCons(x: J.Json, rest: seq<J.Json>)
    ensures J.SettledElems([x] + rest) == [J.Settled(x)] + J.SettledElems(rest)
  {
    assert ([x] + rest)[1..] == rest;
  }

  lemma {:induction false} SettledMap(a: J.Json, b: J.Json, c: J.Json, members: seq<J.Member>)
    requires J.Settled(a) == a && J.Settled(b) == b && J.Settled(c) == c
    ensures J.Settled(J.Arr([a, b, c, J.Obj(members)])) == J.Arr([a, b, c, J.Obj(J.Merged(J.SettledMembers(members)))])
  {
    var obj := J.Obj(members);
    SettledCons(a, [b, c, obj]);
    SettledCons(b, [c, obj]);
    SettledCons(c, [obj]);
    SettledCons(obj, []);
    assert [a] + [b, c, obj] == [a, b, c, obj] && [b] + [c, obj] == [b, c, obj] && [c] + [obj] == [c, obj];
    assert [obj] + [] == [obj];
  }

  lemma {:induction false} SettledList(a: J.Json, b: J.Json, elems: seq<J.Json>)
    requires J.Settled(a) == a && J.Settled(b) == b
    ensures J.Settled(J.Arr([a, b] + elems)) == J.Arr([a, b] + J.SettledElems(elems))
  {
    SettledCons(a, [b] + elems);
    SettledCons(b, elems);
    assert [a] + ([b] + elems) == [a, b] + elems;
  }

  lemma {:induction false} MembersSettled(C: Classes, v: Value, i: nat)
    requires v.Object? && WellTyped(C, Struct(v.cls), v) && UniqueIds(C)
    ensures J.SettledMembers(Members(C, v, true, i)) == Members(C, v, false, i)
    decreases v, 0, |v.vars| - i
  {
    if i < |v.vars| {
      MembersSettled(C, v, i + 1);
      if !Falsy(v.vars[i]) {
        var field := C[v.cls][i];
        TreeSettled(C, field.typ, v.vars[i]);
        MemberFirst(C, v, true, i);
        MemberFirst(C, v, false, i);
        SettledMember(FieldMember(C, field, v.vars[i], true), Members(C, v, true, i + 1));
        SettledField(TypeName(Tag(field.typ)), Tree(C, field.typ, v.vars[i], true));
      } else {
        NoMember(C, v, true, i);
        NoMember(C, v, false, i);
      }
    }
  }

  lemma {:induction false} SettledMember(member: J.Member, rest: seq<J.Member>)
    ensures J.SettledMembers([member] + rest)
         == [J.Member(member.name, J.Settled(member.value))] + J.SettledMembers(rest)
  {
    assert ([member] + rest)[1..] == rest;
  }

  lemma {:induction false} SettledField(name: string, tree: J.Json)
    ensures J.Settled(J.Obj([J.Member(name, tree)])) == J.Obj([J.Member(name, J.Settled(tree))])
  {
    SettledMember(J.Member(name, tree), []);
    assert [J.Member(name, tree)] + [] == [J.Member(name, tree)];
    MergedDistinct([J.Member(name, J.Settled(tree))]);
  }

  lemma {:induction false} EntriesSettled(C: Classes, key: Type, val: Type, v: Value, i: nat)
    requires WellTyped(C, Map(key, val), v) && UniqueIds(C)
    ensures J.SettledMembers(Entries(C, val, v, true, i)) == Entries(C, val, v, false, i)
    decreases v, 0, |v.pairs| - i
  {
    if i < |v.pairs| {
      EntriesSettled(C, key, val, v, i + 1);
      TreeSettled(C, val, v.pairs[i].1);
      SettledMember(J.Member(KeyName(v.pairs[i].0), Tree(C, val, v.pairs[i].1, true)), Entries(C, val, v, true, i + 1));
    }
  }

  lemma {:induction false} ElementsSettled(C: Classes, elem: Type, v: Value, i: nat)
    requires WellTyped(C, List(elem), v) && UniqueIds(C)
    ensures J.SettledElems(Elements(C, elem, v, true, i)) == Elements(C, elem, v, false, i)
    decreases v, 0, |v.items| - i
  {
    if i < |v.items| {
      ElementsSettled(C, elem, v, i + 1);
      TreeSettled(C, elem, v.items[i]);
      SettledCons(Tree(C, elem, v.items[i], true), Elements(C, elem, v, true, i + 1));
    }
  }

  // ---------------------------------------------------------------------------
  // Whether it can be read
  // ---------------------------------------------------------------------------

  // No string that is written has a control character that writeString does not escape, and no number
  // is infinite or not a number.
  ghost predicate Sendable(v: Value) {
    match v
    case Null => true
    case Atom(STRING, payload) => J.Clean(payload)
    case Atom(BOOL, _) => true
    case Atom(_, payload) => J.NumberText(payload)
    case Object(_, vars) => forall i :: 0 <= i < |vars| ==> Falsy(vars[i]) || Sendable(vars[i])
    case Pairs(pairs) => forall i :: 0 <= i < |pairs| ==> J.Clean(KeyName(pairs[i].0)) && Sendable(pairs[i].1)
    case Items(items) => forall i :: 0 <= i < |items| ==> Sendable(items[i])
  }

  lemma {:induction false} SmallNumbers()
    ensures J.NumberText("0") && J.NumberText("1")
  {
    J.DecimalIsNumber(0);
    J.DecimalIsNumber(1);
    assert J.Decimal(0) == "0" && J.Decimal(1) == "1";
  }

  lemma {:induction false} NumeralOf(n: int)
    ensures J.NumberText(J.Numeral(n)) && J.Clean(J.Numeral(n))
  {
    J.DecimalIsNumber(if n < 0 then -n else n);
    if n < 0 {
      MinusDecimal(-n);
    }
    J.NumberChars(J.Numeral(n));
  }

  lemma {:induction false} MinusDecimal(n: nat)
    requires 0 < n
    ensures J.ScanOf("-" + J.Decimal(n)) == J.Whole
  {
    var s := "-" + J.Decimal(n);
    if n < 10 {
      assert s[..1] == "-" && s[1] == J.Digit(n);
      assert J.ScanOf("-") == J.Minus by {
        assert "-"[..0] == "";
      }
    } else {
      MinusDecimal(n / 10);
      assert s[..|s| - 1] == "-" + J.Decimal(n / 10);
    }
  }

  // The text of a value can be read exactly if it is sendable.
  lemma {:induction false} TreeLegible(C: Classes, t: Type, v: Value)
    requires WellTyped(C, t, v) && NumbersOk(v)
    ensures J.Numeric(Tree(C, t, v, true))
    ensures J.Legible(Tree(C, t, v, true)) <==> Sendable(v)
    decreases v, 2
  {
    match t
    case Scalar(_) => SmallNumbers();
    case Struct(_) => MembersLegible(C, v);
    case Map(key, val) =>
      NumeralOf(|v.pairs|);
      EntriesLegible(C, key, val, v);
      MapLegible(J.Str(TypeName(Tag(key))), J.Str(TypeName(Tag(val))), J.Num(J.Decimal(|v.pairs|)),
                 J.Obj(Entries(C, val, v, true, 0)));
    case List(elem) => ListLegible(C, elem, v);
    case Set(elem) => ListLegible(C, elem, v);
  }

  lemma {:induction false} MapLegible(a: J.Json, b: J.Json, c: J.Json, d: J.Json)
    requires J.Legible(a) && J.Legible(b) && J.Legible(c) && J.Numeric(c) && J.Numeric(d) && a.Str? && b.Str?
    ensures J.Numeric(J.Arr([a, b, c, d]))
    ensures J.Legible(J.Arr([a, b, c, d])) <==> J.Legible(d)
  {
    var elems := [a, b, c, d];
    assert elems[3] == d;
  }

  lemma {:induction false} MembersLegible(C: Classes, v: Value)
    requires v.Object? && WellTyped(C, Struct(v.cls), v) && NumbersOk(v)
    ensures J.Numeric(J.Obj(Members(C, v, true, 0)))
    ensures J.Legible(J.Obj(Members(C, v, true, 0))) <==> Sendable(v)
    decreases v, 0
  {
    var members, idx := Members(C, v, true, 0), Written(v, 0);
    WrittenAll(v, 0);
    MembersLength(C, v, true, 0);
    forall a | 0 <= a < |members|
      ensures J.Numeric(members[a].value) && (J.LegibleMember(members[a]) <==> Sendable(v.vars[idx[a]]))
    {
      MemberAt(C, v, true, 0, a);
      MemberLegible(C, C[v.cls][idx[a]], v.vars[idx[a]]);
    }
    assert Sendable(v) <==> forall a :: 0 <= a < |idx| ==> Sendable(v.vars[idx[a]]);
  }

  lemma {:induction false} MemberLegible(C: Classes, field: Field, v: Value)
    requires WellTyped(C, field.typ, v) && NumbersOk(v)
    ensures var member := FieldMember(C, field, v, true);
            J.Numeric(member.value) && (J.LegibleMember(member) <==> Sendable(v))
    decreases v, 3
  {
    TreeLegible(C, field.typ, v);
    NumeralOf(field.fid);
    J.LegibleMembers([J.Member(TypeName(Tag(field.typ)), Tree(C, field.typ, v, true))]);
  }

  lemma {:induction false} EntriesLegible(C: Classes, key: Type, val: Type, v: Value)
    requires WellTyped(C, Map(key, val), v) && NumbersOk(v)
    ensures J.Numeric(J.Obj(Entries(C, val, v, true, 0)))
    ensures J.Legible(J.Obj(Entries(C, val, v, true, 0))) <==> Sendable(v)
    decreases v, 0
  {
    var members := Entries(C, val, v, true, 0);
    EntriesLength(C, val, v, true, 0);
    forall a | 0 <= a < |members|
      ensures J.Numeric(members[a].value)
      ensures J.LegibleMember(members[a]) <==> J.Clean(KeyName(v.pairs[a].0)) && Sendable(v.pairs[a].1)
    {
      EntryAt(C, val, v, true, 0, a);
      TreeLegible(C, val, v.pairs[a].1);
    }
  }

  lemma {:induction false} ListLegible(C: Classes, elem: Type, v: Value)
    requires WellTyped(C, List(elem), v) && NumbersOk(v)
    ensures var tree := Tree(C, List(elem), v, true); J.Numeric(tree) && (J.Legible(tree) <==> Sendable(v))
    decreases v, 1
  {
    ElementsLength(C, elem, v, true, 0);
    var elems := Elements(C, elem, v, true, 0);
    forall k | 0 <= k < |v.items|
      ensures ElementLegible(elems, v.items, k)
    {
      ElementAt(C, elem, v, true, 0, k);
      ItemLegible(C, elem, v.items[k], elems, v.items, k);
    }
    ElementsLegible(C, elem, v, elems);
  }

  lemma {:induction false} ItemLegible(C: Classes, elem: Type, x: Value, elems: seq<J.Json>, items: seq<Value>, k: nat)
    requires WellTyped(C, elem, x) && NumbersOk(x)
    requires k < |items| == |elems| && items[k] == x && elems[k] == Tree(C, elem, x, true)
    ensures ElementLegible(elems, items, k)
    decreases x, 3
  {
    TreeLegible(C, elem, x);
  }

  ghost predicate ElementLegible(elems: seq<J.Json>, items: seq<Value>, k: nat) {
    k < |elems| && k < |items| && J.Numeric(elems[k]) && (J.Legible(elems[k]) <==> Sendable(items[k]))
  }

  lemma {:induction false} ElementsLegible(C: Classes, elem: Type, v: Value, elems: seq<J.Json>)
    requires v.Items? && elems == Elements(C, elem, v, true, 0) && |elems| == |v.items|
    requires forall k :: 0 <= k < |elems| ==> ElementLegible(elems, v.items, k)
    ensures var tree := Tree(C, List(elem), v, true); J.Numeric(tree) && (J.Legible(tree) <==> Sendable(v))
  {
    NumeralOf(|v.items|);
    ListParts(J.Str(TypeName(Tag(elem))), J.Num(J.Decimal(|v.items|)), elems);
    ItemsSendable(v, elems);
  }

  lemma {:induction false} ItemsSendable(v: Value, elems: seq<J.Json>)
    requires v.Items? && |elems| == |v.items|
    requires forall k :: 0 <= k < |elems| ==> ElementLegible(elems, v.items, k)
    ensures J.Numeric(J.Arr(elems)) && (J.Legible(J.Arr(elems)) <==> Sendable(v))
  {
    forall k | 0 <= k < |elems|
      ensures J.Numeric(elems[k]) && (J.Legible(elems[k]) <==> Sendable(v.items[k]))
    {
      assert ElementLegible(elems, v.items, k);
    }
  }

  lemma {:induction false} ListParts(a: J.Json, b: J.Json, elems: seq<J.Json>)
    requires J.Legible(a) && J.Legible(b) && J.Numeric(a) && J.Numeric(b)
    ensures J.Numeric(J.Arr([a, b] + elems)) <==> J.Numeric(J.Arr(elems))
    ensures J.Legible(J.Arr([a, b] + elems)) <==> J.Legible(J.Arr(elems))
  {
    var all := [a, b] + elems;
    J.LegibleElems(all);
    J.LegibleElems(all[1..]);
    assert all[1..][0] == b && all[1..][1..] == elems;
  }
}
