// The calls by which the code generated for structs (thrift/compiler/cpp/src/generate/t_js_generator.cc)
// reads a value with the JavaScript protocol: what arrives is read, in whatever order the members of
// an object come.
module JsonRoundTrip {
  import opened Wire
  import opened JsonWriter
  import opened JsonStructs
  import opened JsonTrees
  import opened JsonArrival
  import opened JsonFields
  import opened JsonReader
  import opened Options
  import J = Json

  // ---------------------------------------------------------------------------
  // What can be read back
  // ---------------------------------------------------------------------------

  // A list of lists or of maps is not read back, and keys are scalars.
  predicate Readable(t: Type) {
    match t
    case Scalar(_) => true
    case Struct(_) => true
    case Map(key, val) => key.Scalar? && Readable(val)
    case List(elem) => elem.Scalar? || elem.Struct?
    case Set(elem) => elem.Scalar? || elem.Struct?
  }

  // The id -1 stands for there being no more fields.
  ghost predicate ReadableFields(fields: seq<Field>) {
    DistinctIds(fields) && forall i :: 0 <= i < |fields| ==> fields[i].fid != -1 && Readable(fields[i].typ)
  }

  ghost predicate ReadableClasses(C: Classes) {
    forall cls :: cls in C ==> ReadableFields(C[cls])
  }

  // Null is for what is not there, and a struct that is not there is one without fields.
  ghost predicate Given(C: Classes, t: Type, v: Value) {
    if v == Null then !t.Struct? else WellTyped(C, t, v) && NumbersOk(v)
  }

  ghost function Nothing(C: Classes, t: Type): Value {
    if t.Struct? && t.cls in C then Object(t.cls, seq(|C[t.cls]|, _ => Null)) else Null
  }

  lemma {:induction false} NothingArrives(C: Classes, t: Type)
    ensures (t.Struct? ==> t.cls in C) ==> Given(C, t, Nothing(C, t))
    ensures Tree(C, t, Nothing(C, t), false) == J.Obj([])
    ensures Arrived(C, t, Nothing(C, t)) == Empty(C, t) && (Throws(C, t, Nothing(C, t)) <==> Container(t))
  {
    if t.Struct? && t.cls in C {
      NoMembers(C, Nothing(C, t), 0);
      assert Arrived(C, t, Nothing(C, t)).vars == Initial(C[t.cls]);
    }
  }

  lemma {:induction false} NoMembers(C: Classes, v: Value, i: nat)
    requires v.Object? && forall k :: 0 <= k < |v.vars| ==> v.vars[k] == Null
    ensures Members(C, v, false, i) == []
    decreases |v.vars| - i
  {
    if i < |v.vars| {
      NoMembers(C, v, i + 1);
    }
  }

  ghost predicate Apart(s: seq<nat>, t: seq<nat>) {
    Distinct(s) && Distinct(t) && forall k :: k in s ==> k !in t
  }

  // Reading a value pops it, or leaves something of it that the next call removes.
  ghost predicate Kept(before: seq<Slot>, after: seq<Slot>)
    requires before != []
  {
    var n := |before|;
    n - 1 <= |after| <= n && after[..n - 1] == before[..n - 1]
  }

  // ---------------------------------------------------------------------------
  // Values
  // ---------------------------------------------------------------------------

  // Each of these methods is false where the code throws.
  method ReadValue(C: Classes, t: Type, ghost v: Value, r: Reader) returns (ok: bool, v': Value)
    requires ReadableClasses(C) && Readable(t) && Given(C, t, v)
    requires r.Valid() && r.rstack != [] && r.rstack[|r.rstack| - 1] == Here(Tree(C, t, v, false))
    modifies r
    ensures ok <==> !Throws(C, t, v)
    ensures ok ==> r.Valid() && r.rpos == old(r.rpos) && Kept(old(r.rstack), r.rstack) && Same(Arrived(C, t, v), v')
    decreases v != Nothing(C, t), v, 2
  {
    match t {
      case Scalar(kind) =>
        ghost var i, value;
        v', i, value := ReadAtom(kind, r);
        ok := true;
      case Struct(cls) => ok, v' := ReadStruct(C, cls, v, r);
      case Map(key, val) => ok, v' := ReadMap(C, key, val, v, r);
      case List(elem) => ok, v' := ReadList(C, elem, false, v, r);
      case Set(elem) => ok, v' := ReadList(C, elem, true, v, r);
    }
  }

  // readString, readBool or one of the others, and what ScalarRead says of it.
  method ReadAtom(kind: Kind, r: Reader) returns (v: Value, ghost i: nat, ghost value: Option<J.Json>)
    requires r.Valid() && r.rstack != []
    modifies r`rstack
    ensures v == AtomOf(kind, value)
    ensures ScalarRead(old(r.At(|r.rstack| - 1)), i, value, r.Place(old(r.rstack), |old(r.rstack)| - 1), old(r.rstack),
                       r.rstack)
  {
    var value', i' := r.ReadScalar();
    v, i, value := AtomOf(kind, value'), i', value';
  }

  // readBool compares with '1'. Null stands for what is undefined.
  function AtomOf(kind: Kind, value: Option<J.Json>): Value {
    var text := if value.Some? && (value.value.Num? || value.value.Str?) then value.value.text else "";
    if kind == BOOL then Atom(BOOL, if text == "1" then "1" else "0") else if value == None then Null
    else Atom(kind, text)
  }

  // ---------------------------------------------------------------------------
  // Structs
  // ---------------------------------------------------------------------------

  // The members that are left are those of the vars that idx names; the others have been read.
  ghost predicate Pending(C: Classes, v: Value, members: seq<J.Member>, idx: seq<nat>, vars: seq<Value>)
    requires v.Object? && v.cls in C && |C[v.cls]| == |v.vars|
  {
    && |idx| == |members| && |vars| == |v.vars| && Distinct(idx)
    && MembersOf(C, v, members, idx)
    && (forall k {:trigger vars[k]} :: 0 <= k < |v.vars| ==> VarRead(C, v, k, k !in idx, vars[k]))
  }

  ghost predicate MembersOf(C: Classes, v: Value, members: seq<J.Member>, idx: seq<nat>)
    requires v.Object? && v.cls in C && |C[v.cls]| == |v.vars| && |members| == |idx|
  {
    forall a {:trigger idx[a]} :: 0 <= a < |idx| ==> MemberOf(C, v, false, members[a], idx[a])
  }

  ghost predicate VarRead(C: Classes, v: Value, k: nat, read: bool, x: Value)
    requires v.Object? && v.cls in C && |C[v.cls]| == |v.vars| && k < |v.vars|
  {
    if read && !Falsy(v.vars[k])
    then !Throws(C, C[v.cls][k].typ, v.vars[k]) && Same(Arrived(C, C[v.cls][k].typ, v.vars[k]), x)
    else x == C[v.cls][k].initial
  }

  // When all that was written is read, nothing has thrown.
  lemma {:induction false} AllRead(C: Classes, v: Value, vars: seq<Value>)
    requires v.Object? && v.cls in C && |C[v.cls]| == |v.vars| && Pending(C, v, [], [], vars)
    ensures !Throws(C, Struct(v.cls), v) && Same(Arrived(C, Struct(v.cls), v), Object(v.cls, vars))
  {
    var w := Arrived(C, Struct(v.cls), v);
    forall k | 0 <= k < |v.vars|
      ensures Same(w.vars[k], vars[k]) && (Falsy(v.vars[k]) || !Throws(C, C[v.cls][k].typ, v.vars[k]))
    {
      assert VarRead(C, v, k, true, vars[k]);
      SameReflexive(vars[k]);
      assert w.vars[k] == ArrivedVar(C, v, k);
    }
  }

  lemma {:induction false} AllPending(C: Classes, v: Value)
    requires v.Object? && v.cls in C && |C[v.cls]| == |v.vars|
    ensures Pending(C, v, Members(C, v, false, 0), Written(v, 0), Initial(C[v.cls]))
  {
    var idx, vars := Written(v, 0), Initial(C[v.cls]);
    WrittenAll(v, 0);
    MembersLength(C, v, false, 0);
    forall a | 0 <= a < |idx|
      ensures MemberOf(C, v, false, Members(C, v, false, 0)[a], idx[a])
    {
      MemberAt(C, v, false, 0, a);
    }
    forall k | 0 <= k < |v.vars|
      ensures VarRead(C, v, k, k !in idx, vars[k])
    {
    }
  }

  lemma {:induction false} PendingStep(C: Classes, v: Value, members: seq<J.Member>, idx: seq<nat>, vars: seq<Value>,
                                       i: nat, x: Value)
    requires v.Object? && v.cls in C && |C[v.cls]| == |v.vars|
    requires Pending(C, v, members, idx, vars) && i < |idx| && VarRead(C, v, idx[i], true, x)
    ensures Pending(C, v, Without(members, i), Without(idx, i), vars[idx[i] := x])
  {
    WithoutOne(idx, i);
    MembersWithout(C, v, members, idx, i);
    forall k | 0 <= k < |v.vars|
      ensures VarRead(C, v, k, k !in Without(idx, i), vars[idx[i] := x][k])
    {
      assert VarRead(C, v, k, k !in idx, vars[k]);
    }
  }

  lemma {:induction false} MembersWithout(C: Classes, v: Value, members: seq<J.Member>, idx: seq<nat>, i: nat)
    requires v.Object? && v.cls in C && |C[v.cls]| == |v.vars| && |members| == |idx| && i < |idx|
    requires MembersOf(C, v, members, idx)
    ensures MembersOf(C, v, Without(members, i), Without(idx, i))
  {
    forall a | 0 <= a < |idx| - 1
      ensures MemberOf(C, v, false, Without(members, i)[a], Without(idx, i)[a])
    {
      var b := if a < i then a else a + 1;
      assert MemberOf(C, v, false, members[b], idx[b]);
      WithoutAt(members, i, a);
      WithoutAt(idx, i, a);
    }
  }

  lemma {:induction false} WithoutAt<T>(s: seq<T>, i: nat, a: nat)
    requires i < |s| && a < |s| - 1
    ensures Without(s, i)[a] == s[if a < i then a else a + 1]
  {
  }

  lemma {:induction false} WithoutOne(idx: seq<nat>, i: nat)
    requires i < |idx| && Distinct(idx)
    ensures Distinct(Without(idx, i))
    ensures forall k :: k in Without(idx, i) <==> k in idx && k != idx[i]
  {
    var rest := Without(idx, i);
    assert forall a :: 0 <= a < |rest| ==> rest[a] == idx[if a < i then a else a + 1];
    forall k | k in idx && k != idx[i]
      ensures k in rest
    {
      var a: nat :| a < |idx| && idx[a] == k;
      assert rest[if a < i then a else a - 1] == k;
    }
  }

  lemma {:induction false} FieldMemberIsField(C: Classes, field: Field, v: Value)
    requires field.fid != -1
    ensures var member := FieldMember(C, field, v, false);
            && IsField(member) && J.ParseInt(member.name) == field.fid
            && TypeOf(member.value.members[0].name) == Some(Tag(field.typ))
  {
    J.ParseNumeral(field.fid);
    assert TypeName(Tag(field.typ)) == Name(Tag(field.typ));
  }

  // new and read
  method ReadStruct(C: Classes, cls: string, ghost v: Value, r: Reader) returns (ok: bool, v': Value)
    requires ReadableClasses(C) && Given(C, Struct(cls), v)
    requires r.Valid() && r.rstack != [] && r.rstack[|r.rstack| - 1] == Here(Tree(C, Struct(cls), v, false))
    modifies r
    ensures ok <==> !Throws(C, Struct(cls), v)
    ensures ok ==>
              && r.Valid() && r.rpos == old(r.rpos) && Kept(old(r.rstack), r.rstack)
              && Same(Arrived(C, Struct(cls), v), v')
    decreases v != Nothing(C, Struct(cls)), v, 1
  {
    r.ReadStructBegin();
    var vars;
    ok, vars := ReadFields(C, cls, v, r);
    v' := Object(cls, vars);
    if ok {
      r.ReadStructEnd();
    }
  }

  // The loop of read.
  method ReadFields(C: Classes, cls: string, ghost v: Value, r: Reader) returns (ok: bool, vars: seq<Value>)
    requires ReadableClasses(C) && Given(C, Struct(cls), v)
    requires r.Valid() && r.rstack != [] && r.rstack[|r.rstack| - 1] == Here(J.Obj(Members(C, v, false, 0)))
    modifies r
    ensures ok <==> !Throws(C, Struct(cls), v)
    ensures ok ==>
              && r.rpos == old(r.rpos) && r.rstack == old(r.rstack)[..|old(r.rstack)| - 1] + [Here(J.Obj([]))]
              && Same(Arrived(C, Struct(cls), v), Object(cls, vars))
    decreases v != Nothing(C, Struct(cls)), v, 0, 1
  {
    var fields := C[cls];
    vars := Initial(fields);
    ghost var idx := Written(v, 0);
    ghost var base := r.rstack[..|r.rstack| - 1];
    ghost var members := Members(C, v, false, 0);
    AllPending(C, v);
    var more := true;
    while more
      invariant r.rpos == old(r.rpos) && r.rstack == base + [Here(J.Obj(members))] && r.Valid()
      invariant Pending(C, v, members, idx, vars) && (!more ==> members == [])
      decreases |members|, more
    {
      ok, more, vars, members, idx := ReadField(C, cls, v, r, vars, base, members, idx);
      if !ok {
        return;
      }
    }
    ok := true;
    AllRead(C, v, vars);
  }

  // One turn of it: no more when there are no more fields.
  method ReadField(C: Classes, cls: string, ghost v: Value, r: Reader, vars: seq<Value>,
                   ghost base: seq<Slot>, ghost members: seq<J.Member>, ghost idx: seq<nat>)
    returns (ok: bool, more: bool, vars': seq<Value>, ghost members': seq<J.Member>, ghost idx': seq<nat>)
    requires ReadableClasses(C) && Given(C, Struct(cls), v)
    requires r.Valid() && r.rstack == base + [Here(J.Obj(members))]
    requires Pending(C, v, members, idx, vars)
    modifies r
    ensures !ok ==> Throws(C, Struct(cls), v)
    ensures ok ==> r.rpos == old(r.rpos) && r.rstack == base + [Here(J.Obj(members'))] && r.Valid()
    ensures ok ==> Pending(C, v, members', idx', vars')
    ensures ok ==> if more then |members'| < |members| else members == members' == []
    decreases v != Nothing(C, Struct(cls)), v, 0, 0
  {
    ok, vars', members', idx' := true, vars, members, idx;
    PendingFields(C, v, members, idx, vars);
    var ftype, fid, i := r.ReadFieldBegin();
    if ftype.None? {
      more := false;
      return;
    }
    more := true;
    var j := FieldIndex(C[cls], fid);
    FieldFound(C, v, members[i], idx[i], fid);
    if j < |C[cls]| && ftype == Some(Tag(C[cls][j].typ)) {
      var x;
      ok, x := ReadValue(C, C[cls][j].typ, v.vars[j], r);
      if !ok {
        return;
      }
      PendingStep(C, v, members, idx, vars, i, x);
      vars', members', idx' := vars[j := x], Without(members, i), Without(idx, i);
    } else {
      // skip is not supported.
      assert false;
    }
    r.ReadFieldEnd();
  }

  // A member's field is found by its id, with the type that is expected.
  lemma {:induction false} FieldFound(C: Classes, v: Value, member: J.Member, k: nat, fid: int)
    requires v.Object? && v.cls in C && |C[v.cls]| == |v.vars| && ReadableFields(C[v.cls])
    requires MemberOf(C, v, false, member, k) && fid == J.ParseInt(member.name)
    ensures k < |v.vars| && FieldIndex(C[v.cls], fid) == k && member == FieldMember(C, C[v.cls][k], v.vars[k], false)
    ensures member.value == J.Obj([J.Member(TypeName(Tag(C[v.cls][k].typ)),
                                            Tree(C, C[v.cls][k].typ, v.vars[k], false))])
    ensures TypeOf(member.value.members[0].name) == Some(Tag(C[v.cls][k].typ))
  {
    FieldMemberIsField(C, C[v.cls][k], v.vars[k]);
  }

  lemma {:induction false} PendingFields(C: Classes, v: Value, members: seq<J.Member>, idx: seq<nat>, vars: seq<Value>)
    requires v.Object? && v.cls in C && |C[v.cls]| == |v.vars| && ReadableFields(C[v.cls])
    requires Pending(C, v, members, idx, vars)
    ensures FieldsOnly(J.Obj(members))
  {
    forall a | 0 <= a < |members|
      ensures IsField(members[a])
    {
      FieldMemberIsField(C, C[v.cls][idx[a]], v.vars[idx[a]]);
    }
  }

  // ---------------------------------------------------------------------------
  // Maps
  // ---------------------------------------------------------------------------

  // The members that are left are those of the pairs that idx names; the others have been read,
  // in the given order.
  ghost predicate PairsPending(C: Classes, key: Type, val: Type, v: Value, members: seq<J.Member>, idx: seq<nat>,
                               order: seq<nat>)
    requires v.Pairs?
  {
    && |idx| == |members| && Apart(order, idx)
    && |order| + |idx| == |v.pairs| - FirstRead(key, v)
    && (forall k: nat :: FirstRead(key, v) <= k < |v.pairs| ==> k in order || k in idx)
    && (forall a :: 0 <= a < |idx| ==> PairLeft(C, key, val, v, members[a], idx[a]))
  }

  ghost predicate PairLeft(C: Classes, key: Type, val: Type, v: Value, member: J.Member, k: nat)
    requires v.Pairs?
  {
    && FirstRead(key, v) <= k < |v.pairs|
    && member == J.Member(KeyName(v.pairs[k].0), Tree(C, val, v.pairs[k].1, false))
  }

  ghost predicate PairRead(C: Classes, key: Type, val: Type, v: Value, k: nat, pair: (Value, Value))
    requires v.Pairs?
  {
    && FirstRead(key, v) <= k < |v.pairs|
    && !Throws(C, val, v.pairs[k].1)
    && pair.0 == ArrivedKey(v.pairs[k].0) && Same(Arrived(C, val, v.pairs[k].1), pair.1)
  }

  ghost predicate PairsRead(C: Classes, key: Type, val: Type, v: Value, pairs: seq<(Value, Value)>, order: seq<nat>)
    requires v.Pairs?
  {
    |pairs| == |order| && forall j :: 0 <= j < |order| ==> PairRead(C, key, val, v, order[j], pairs[j])
  }

  // What one turn too many makes of an empty object.
  ghost predicate NothingRead(C: Classes, val: Type, pair: (Value, Value)) {
    !Container(val) && pair.0 == Atom(BOOL, "0") && Same(Empty(C, val), pair.1)
  }

  // After i turns of the loop. There is one turn too many when two pairs were written under one name.
  ghost predicate Turned(C: Classes, key: Type, val: Type, v: Value, i: nat, members: seq<J.Member>, idx: seq<nat>,
                         pairs: seq<(Value, Value)>, order: seq<nat>)
    requires v.Pairs?
  {
    var n := |v.pairs| - FirstRead(key, v);
    && PairsPending(C, key, val, v, members, idx, order)
    && if i <= n then |order| == i && PairsRead(C, key, val, v, pairs, order)
       else
         && |order| == n && |pairs| == n + 1 && PairsRead(C, key, val, v, pairs[..n], order)
         && NothingRead(C, val, pairs[n])
  }

  function UpTo(low: nat, n: nat): (s: seq<nat>)
    requires low <= n
    ensures |s| == n - low && (forall i :: 0 <= i < n - low ==> s[i] == low + i) && Distinct(s)
  {
    seq(n - low, i requires 0 <= i => low + i)
  }

  lemma {:induction false} NoTurns(C: Classes, key: Type, val: Type, v: Value)
    requires v.Pairs?
    ensures var first := FirstRead(key, v);
            Turned(C, key, val, v, 0, Entries(C, val, v, false, first), UpTo(first, |v.pairs|), [], [])
  {
    var first := FirstRead(key, v);
    AllLeft(C, key, val, v);
    forall k: nat | first <= k < |v.pairs|
      ensures k in UpTo(first, |v.pairs|)
    {
      assert UpTo(first, |v.pairs|)[k - first] == k;
    }
  }

  lemma {:induction false} AllLeft(C: Classes, key: Type, val: Type, v: Value)
    requires v.Pairs?
    ensures var first, members := FirstRead(key, v), Entries(C, val, v, false, FirstRead(key, v));
            && |members| == |v.pairs| - first
            && forall a :: 0 <= a < |members| ==> PairLeft(C, key, val, v, members[a], first + a)
  {
    var first := FirstRead(key, v);
    EntriesLength(C, val, v, false, first);
    forall a | 0 <= a < |v.pairs| - first
      ensures PairLeft(C, key, val, v, Entries(C, val, v, false, first)[a], first + a)
    {
      EntryAt(C, val, v, false, first, first + a);
    }
  }

  lemma {:induction false} PairAdded(C: Classes, key: Type, val: Type, v: Value, members: seq<J.Member>, idx: seq<nat>,
                                     pairs: seq<(Value, Value)>, order: seq<nat>, i: nat, pair: (Value, Value))
    requires WellTyped(C, Map(key, val), v) && i < |idx|
    requires PairsPending(C, key, val, v, members, idx, order) && PairsRead(C, key, val, v, pairs, order)
    requires PairRead(C, key, val, v, idx[i], pair)
    ensures PairsRead(C, key, val, v, Put(pairs, pair.0, pair.1), order + [idx[i]])
  {
    forall j | 0 <= j < |pairs|
      ensures pairs[j].0 != pair.0
    {
      assert order[j] in order && idx[i] in idx;
      assert PairRead(C, key, val, v, order[j], pairs[j]);
      ArrivedKeysDiffer(C, key, val, v, order[j], idx[i]);
    }
    PutNew(pairs, pair.0, pair.1);
  }

  lemma {:induction false} PairTaken(C: Classes, key: Type, val: Type, v: Value, members: seq<J.Member>, idx: seq<nat>,
                                     order: seq<nat>, i: nat)
    requires v.Pairs? && i < |idx| && PairsPending(C, key, val, v, members, idx, order)
    ensures PairsPending(C, key, val, v, Without(members, i), Without(idx, i), order + [idx[i]])
  {
    Moved(order, idx, i);
    WithoutOne(idx, i);
    forall a | 0 <= a < |idx| - 1
      ensures PairLeft(C, key, val, v, Without(members, i)[a], Without(idx, i)[a])
    {
      WithoutAt(members, i, a);
      WithoutAt(idx, i, a);
    }
  }

  // Taking one of the rest next keeps all apart.
  lemma {:induction false} Moved(order: seq<nat>, idx: seq<nat>, i: nat)
    requires i < |idx| && Apart(order, idx)
    ensures Apart(order + [idx[i]], Without(idx, i))
  {
    WithoutOne(idx, i);
    assert idx[i] in idx;
    forall a, b | 0 <= a < b < |order| + 1
      ensures (order + [idx[i]])[a] != (order + [idx[i]])[b]
    {
      assert order[a] in order;
    }
  }

  // No key is read twice.
  lemma {:induction false} ReadKeysDiffer(C: Classes, key: Type, val: Type, v: Value, read: seq<(Value, Value)>,
                                          order: seq<nat>)
    requires WellTyped(C, Map(key, val), v) && Distinct(order)
    requires var n := |v.pairs| - FirstRead(key, v);
             && n <= |read| <= n + 1 && PairsRead(C, key, val, v, read[..n], order)
             && (n < |read| ==> key == Scalar(BOOL) && NothingRead(C, val, read[n]))
    ensures KeysDiffer(read)
  {
    var n := |v.pairs| - FirstRead(key, v);
    forall i, j | 0 <= i < j < |read|
      ensures read[i].0 != read[j].0
    {
      assert PairRead(C, key, val, v, order[i], read[..n][i]);
      if j < n {
        assert PairRead(C, key, val, v, order[j], read[..n][j]);
        ArrivedKeysDiffer(C, key, val, v, order[i], order[j]);
      } else {
        BooleanKeys(C, val, v);
      }
    }
  }

  // When all turns are over, what arrived has been read.
  lemma {:induction false} AllTurned(C: Classes, key: Type, val: Type, v: Value, members: seq<J.Member>, idx: seq<nat>,
                                     pairs: seq<(Value, Value)>, read: seq<(Value, Value)>, order: seq<nat>)
    requires WellTyped(C, Map(key, val), v) && NumbersOk(v) && pairs == Dropped(read)
    requires Turned(C, key, val, v, |v.pairs|, members, idx, read, order)
    ensures !Throws(C, Map(key, val), v) && Same(Arrived(C, Map(key, val), v), Pairs(pairs))
  {
    var first := FirstRead(key, v);
    if 0 < first {
      TwoKeys(C, val, v);
    }
    var n := |v.pairs| - first;
    NoneThrows(C, key, val, v, read[..n], order);
    MapArrived(C, key, val, v);
    ArrivedDiffer(C, key, val, v);
    ReadKeysDiffer(C, key, val, v, read, order);
    SameTurned(C, key, val, v, Pairs(ArrivedPairs(C, key, val, v)), read, order);
    SameDropped(ArrivedPairs(C, key, val, v), read);
  }

  lemma {:induction false} NoneThrows(C: Classes, key: Type, val: Type, v: Value, pairs: seq<(Value, Value)>,
                                      order: seq<nat>)
    requires v.Pairs? && PairsRead(C, key, val, v, pairs, order)
    requires forall k: nat :: FirstRead(key, v) <= k < |v.pairs| ==> k in order
    requires 0 < FirstRead(key, v) ==> !Container(val)
    ensures !Throws(C, Map(key, val), v)
  {
    forall i: nat | FirstRead(key, v) <= i < |v.pairs|
      ensures !Throws(C, val, v.pairs[i].1)
    {
      assert i in order;
      var j :| 0 <= j < |order| && order[j] == i;
      assert PairRead(C, key, val, v, order[j], pairs[j]);
    }
  }

  lemma {:induction false} SameTurned(C: Classes, key: Type, val: Type, v: Value, w: Value, pairs: seq<(Value, Value)>,
                                      order: seq<nat>)
    requires v.Pairs? && w.Pairs? && PairsArrived(C, key, val, v, w.pairs) && |pairs| == |w.pairs|
    requires var n := |v.pairs| - FirstRead(key, v);
             && PairsRead(C, key, val, v, pairs[..n], order)
             && (n < |pairs| ==> NothingRead(C, val, pairs[n]))
             && forall k: nat :: FirstRead(key, v) <= k < |v.pairs| ==> k in order
    ensures Same(w, Pairs(pairs))
  {
    var first, n := FirstRead(key, v), |v.pairs| - FirstRead(key, v);
    var w' := Pairs(pairs);
    forall j | 0 <= j < |pairs|
      ensures KeptFrom(w, w', j)
    {
      if j < n {
        PairMoved(C, key, val, v, w, pairs, order, j);
        assert SamePair(w, order[j] - first, w', j);
      } else {
        assert SamePair(w, n, w', j);
      }
    }
    forall i | 0 <= i < |pairs|
      ensures KeptIn(w, i, w')
    {
      if i < n {
        PairFound(C, key, val, v, w, pairs, order, first + i);
      } else {
        assert SamePair(w, n, w', i);
      }
    }
  }

  lemma {:induction false} PairFound(C: Classes, key: Type, val: Type, v: Value, w: Value, pairs: seq<(Value, Value)>,
                                     order: seq<nat>, k: nat)
    requires v.Pairs? && w.Pairs? && PairsArrived(C, key, val, v, w.pairs) && |pairs| == |w.pairs|
    requires PairsRead(C, key, val, v, pairs[..|v.pairs| - FirstRead(key, v)], order) && k in order
    ensures FirstRead(key, v) <= k < |v.pairs| && KeptIn(w, k - FirstRead(key, v), Pairs(pairs))
  {
    var j :| 0 <= j < |order| && order[j] == k;
    PairMoved(C, key, val, v, w, pairs, order, j);
  }

  lemma {:induction false} PairMoved(C: Classes, key: Type, val: Type, v: Value, w: Value, pairs: seq<(Value, Value)>,
                                     order: seq<nat>, j: nat)
    requires v.Pairs? && w.Pairs? && PairsArrived(C, key, val, v, w.pairs) && |pairs| == |w.pairs|
    requires PairsRead(C, key, val, v, pairs[..|v.pairs| - FirstRead(key, v)], order) && j < |order|
    ensures FirstRead(key, v) <= order[j] < |v.pairs|
    ensures SamePair(w, order[j] - FirstRead(key, v), Pairs(pairs), j)
  {
    var i := order[j] - FirstRead(key, v);
    assert PairRead(C, key, val, v, order[j], pairs[..|v.pairs| - FirstRead(key, v)][j]);
    assert w.pairs[i] == (ArrivedKey(v.pairs[FirstRead(key, v) + i].0),
                          Arrived(C, val, v.pairs[FirstRead(key, v) + i].1));
  }

  method ReadMap(C: Classes, key: Type, val: Type, ghost v: Value, r: Reader) returns (ok: bool, v': Value)
    requires ReadableClasses(C) && key.Scalar? && Readable(val) && Given(C, Map(key, val), v)
    requires r.Valid() && r.rstack != [] && r.rstack[|r.rstack| - 1] == Here(Tree(C, Map(key, val), v, false))
    modifies r
    ensures ok <==> !Throws(C, Map(key, val), v)
    ensures ok ==>
              && r.Valid() && r.rpos == old(r.rpos) && Kept(old(r.rstack), r.rstack)
              && Same(Arrived(C, Map(key, val), v), v')
    decreases v != Nothing(C, Map(key, val)), v, 1
  {
    v' := Null;
    ghost var base := r.rstack[..|r.rstack| - 1];
    var size;
    ok, size := BeginMap(C, key, val, v, r, base);
    if ok {
      ok, v' := FinishMap(C, key, val, size, v, r, base, old(r.rpos));
    }
  }

  method FinishMap(C: Classes, key: Type, val: Type, size: int, ghost v: Value, r: Reader, ghost base: seq<Slot>,
                   ghost rpos: seq<nat>)
    returns (ok: bool, v': Value)
    requires ReadableClasses(C) && key.Scalar? && Readable(val) && WellTyped(C, Map(key, val), v) && NumbersOk(v)
    requires size == |v.pairs| && r.rpos == rpos + [|base|]
    requires r.Valid() && r.rstack == base + [Here(J.Obj(Entries(C, val, v, false, FirstRead(key, v))))]
    modifies r
    ensures ok <==> !Throws(C, Map(key, val), v)
    ensures ok ==> r.rpos == rpos && r.rstack == base && Same(Arrived(C, Map(key, val), v), v')
    decreases v != Nothing(C, Map(key, val)), v, 0, 3
  {
    var pairs;
    ok, pairs := ReadPairs(C, key, val, size, v, r, base);
    v' := Pairs(pairs);
    if ok {
      r.ReadMapEnd();
    }
  }

  // A map is replaced by the object with its members.
  method BeginMap(C: Classes, key: Type, val: Type, ghost v: Value, r: Reader, ghost base: seq<Slot>)
    returns (ok: bool, size: int)
    requires Given(C, Map(key, val), v)
    requires r.Valid() && r.rstack == base + [Here(Tree(C, Map(key, val), v, false))]
    modifies r
    ensures ok <==> v != Null
    ensures v == Null ==> Throws(C, Map(key, val), v)
    ensures ok ==>
              && r.Valid() && size == |v.pairs| && r.rpos == old(r.rpos) + [|base|]
              && r.rstack == base + [Here(J.Obj(Entries(C, val, v, false, FirstRead(key, v))))]
  {
    if v != Null {
      MapHead(C, key, val, v);
    }
    var ktype, vtype;
    ok, ktype, vtype, size := r.ReadMapBegin();
  }

  lemma {:induction false} MapHead(C: Classes, key: Type, val: Type, v: Value)
    requires v.Pairs?
    ensures var tree := Tree(C, Map(key, val), v, false);
            && tree.Arr? && HasHead(tree.elems, 2) && J.ParseInt(tree.elems[2].text) == |v.pairs|
            && tree.elems[3..] == [J.Obj(Entries(C, val, v, false, FirstRead(key, v)))]
  {
    J.ParseNumeral(|v.pairs|);
  }

  // Its loop.
  method ReadPairs(C: Classes, key: Type, val: Type, size: int, ghost v: Value, r: Reader, ghost base: seq<Slot>)
    returns (ok: bool, pairs: seq<(Value, Value)>)
    requires ReadableClasses(C) && key.Scalar? && Readable(val) && WellTyped(C, Map(key, val), v) && NumbersOk(v)
    requires size == |v.pairs| && r.rpos != [] && r.rpos[|r.rpos| - 1] == |base|
    requires r.Valid() && r.rstack == base + [Here(J.Obj(Entries(C, val, v, false, FirstRead(key, v))))]
    modifies r
    ensures ok <==> !Throws(C, Map(key, val), v)
    ensures ok ==>
              && r.Valid() && r.rpos == old(r.rpos) && base <= r.rstack
              && Same(Arrived(C, Map(key, val), v), Pairs(pairs))
    decreases v != Nothing(C, Map(key, val)), v, 0, 2
  {
    pairs := [];
    ghost var first := FirstRead(key, v);
    ghost var read, left, order := [], [], [];
    ghost var members, idx := Entries(C, val, v, false, first), UpTo(first, |v.pairs|);
    NoTurns(C, key, val, v);
    if 0 < first {
      TwoKeys(C, val, v);
    }
    for i := 0 to size
      invariant r.rpos == old(r.rpos) && r.Valid()
      invariant i <= |v.pairs| - first ==>
                  r.rstack == base + [Here(J.Obj(members))] + left && |left| <= (if i == 0 then 0 else 1)
      invariant base <= r.rstack
      invariant Turned(C, key, val, v, i, members, idx, read, order) && pairs == Dropped(read)
    {
      ok, pairs, read, left, members, idx, order :=
          ReadNext(C, key.kind, val, i, v, r, pairs, read, base, left, members, idx, order);
      if !ok {
        return;
      }
    }
    ok := true;
    AllTurned(C, key, val, v, members, idx, pairs, read, order);
  }

  // One turn of the loop.
  method ReadNext(C: Classes, kind: Kind, val: Type, i: nat, ghost v: Value, r: Reader, pairs: seq<(Value, Value)>,
                  ghost read: seq<(Value, Value)>, ghost base: seq<Slot>, ghost left: seq<Slot>,
                  ghost members: seq<J.Member>, ghost idx: seq<nat>, ghost order: seq<nat>)
    returns (ok: bool, pairs': seq<(Value, Value)>, ghost read': seq<(Value, Value)>, ghost left': seq<Slot>,
             ghost members': seq<J.Member>, ghost idx': seq<nat>, ghost order': seq<nat>)
    requires ReadableClasses(C) && Readable(val) && WellTyped(C, Map(Scalar(kind), val), v) && NumbersOk(v)
    requires r.Valid() && r.rstack == base + [Here(J.Obj(members))] + left && |left| <= (if i == 0 then 0 else 1)
    requires r.rpos != [] && r.rpos[|r.rpos| - 1] == |base|
    requires i < |v.pairs| && i <= |v.pairs| - FirstRead(Scalar(kind), v)
    requires Turned(C, Scalar(kind), val, v, i, members, idx, read, order) && pairs == Dropped(read)
    modifies r
    ensures !ok ==> Throws(C, Map(Scalar(kind), val), v)
    ensures ok ==> r.rpos == old(r.rpos) && r.Valid()
    ensures ok && i < |v.pairs| - FirstRead(Scalar(kind), v) ==>
              r.rstack == base + [Here(J.Obj(members'))] + left' && |left'| <= 1
    ensures ok ==> base <= r.rstack
    ensures ok ==> Turned(C, Scalar(kind), val, v, i + 1, members', idx', read', order') && pairs' == Dropped(read')
    decreases v != Nothing(C, Map(Scalar(kind), val)), v, 0, 1
  {
    if i > 0 {
      DropLeftover(r, base + [Here(J.Obj(members))], left);
    }
    ok, pairs', read', left', members', idx', order' :=
        ReadPair(C, kind, val, i, v, r, pairs, read, base, members, idx, order);
  }

  // What reading the last value left on the stack is popped.
  method DropLeftover(r: Reader, ghost rest: seq<Slot>, ghost left: seq<Slot>)
    requires r.rpos != [] && r.rpos[|r.rpos| - 1] + 1 == |rest|
    requires r.rstack == rest + left && |left| <= 1
    modifies r`rstack
    ensures r.rstack == rest
  {
    if |r.rstack| > r.rpos[|r.rpos| - 1] + 1 {
      r.rstack := r.rstack[..|r.rstack| - 1];
    }
  }

  // Whose value the key is for.
  ghost function Source(C: Classes, val: Type, v: Value, idx: seq<nat>, at: nat): Value
    requires v.Pairs?
  {
    if at < |idx| && idx[at] < |v.pairs| then v.pairs[idx[at]].1 else Nothing(C, val)
  }

  lemma {:induction false} PairSource(C: Classes, kind: Kind, val: Type, v: Value, i: nat, members: seq<J.Member>,
                                      idx: seq<nat>, pairs: seq<(Value, Value)>, order: seq<nat>,
                                      at: nat, value: Option<J.Json>)
    requires WellTyped(C, Map(Scalar(kind), val), v) && NumbersOk(v)
    requires i < |v.pairs| && i <= |v.pairs| - FirstRead(Scalar(kind), v)
    requires Turned(C, Scalar(kind), val, v, i, members, idx, pairs, order)
    requires if members == [] then value == None else at < |members| && value == Some(J.Str(members[at].name))
    ensures members == [] <==> i == |v.pairs| - FirstRead(Scalar(kind), v)
    ensures Tree(C, val, Source(C, val, v, idx, at), false) == if members == [] then J.Obj([]) else members[at].value
    ensures var source := Source(C, val, v, idx, at);
            && Given(C, val, source) && (Throws(C, val, source) ==> Throws(C, Map(Scalar(kind), val), v))
            && if members == []
               then AtomOf(kind, value) == Atom(BOOL, "0") && source == Nothing(C, val) && kind == BOOL
               else
                 && PairLeft(C, Scalar(kind), val, v, members[at], idx[at]) && source == v.pairs[idx[at]].1
                 && AtomOf(kind, value) == ArrivedKey(v.pairs[idx[at]].0)
  {
    var key := Scalar(kind);
    if members == [] {
      assert 0 < FirstRead(key, v);
      assert WellTyped(C, val, v.pairs[0].1);
      NothingArrives(C, val);
    } else {
      assert PairLeft(C, key, val, v, members[at], idx[at]);
      assert WellTyped(C, key, v.pairs[idx[at]].0) && WellTyped(C, val, v.pairs[idx[at]].1);
    }
  }

  // There was one pair, under true.
  lemma {:induction false} TooMuchRead(C: Classes, val: Type, v: Value, i: nat, members: seq<J.Member>, idx: seq<nat>,
                                       pairs: seq<(Value, Value)>, order: seq<nat>, pair: (Value, Value))
    requires WellTyped(C, Map(Scalar(BOOL), val), v) && 0 < i == |v.pairs| - FirstRead(Scalar(BOOL), v)
    requires Turned(C, Scalar(BOOL), val, v, i, members, idx, pairs, order) && NothingRead(C, val, pair)
    ensures Turned(C, Scalar(BOOL), val, v, i + 1, members, idx, Put(pairs, pair.0, pair.1), order)
  {
    forall j | 0 <= j < |pairs|
      ensures pairs[j].0 != pair.0
    {
      assert PairRead(C, Scalar(BOOL), val, v, order[j], pairs[j]);
      assert WellTyped(C, Scalar(BOOL), v.pairs[order[j]].0);
    }
    PutNew(pairs, pair.0, pair.1);
    assert (pairs + [pair])[..i] == pairs;
  }

  lemma {:induction false} PairTurned(C: Classes, kind: Kind, val: Type, v: Value, i: nat, members: seq<J.Member>,
                                      idx: seq<nat>, pairs: seq<(Value, Value)>, order: seq<nat>,
                                      at: nat, value: Option<J.Json>, x: Value)
    requires WellTyped(C, Map(Scalar(kind), val), v) && NumbersOk(v)
    requires i < |v.pairs| && i <= |v.pairs| - FirstRead(Scalar(kind), v)
    requires Turned(C, Scalar(kind), val, v, i, members, idx, pairs, order)
    requires if members == [] then value == None else at < |members| && value == Some(J.Str(members[at].name))
    requires var source := Source(C, val, v, idx, at); !Throws(C, val, source) && Same(Arrived(C, val, source), x)
    ensures var key, pairs' := Scalar(kind), Put(pairs, AtomOf(kind, value), x);
            if members == [] then Turned(C, key, val, v, i + 1, members, idx, pairs', order)
            else Turned(C, key, val, v, i + 1, Without(members, at), Without(idx, at), pairs', order + [idx[at]])
  {
    PairSource(C, kind, val, v, i, members, idx, pairs, order, at, value);
    if members == [] {
      NothingArrives(C, val);
      TooMuchRead(C, val, v, i, members, idx, pairs, order, (Atom(BOOL, "0"), x));
    } else {
      PairTaken(C, Scalar(kind), val, v, members, idx, order, at);
      PairAdded(C, Scalar(kind), val, v, members, idx, pairs, order, at, (AtomOf(kind, value), x));
    }
  }

  // A key; its value is pushed.
  method ReadKey(kind: Kind, r: Reader, ghost base: seq<Slot>, ghost members: seq<J.Member>)
    returns (key: Value, ghost at: nat, ghost value: Option<J.Json>)
    requires r.Valid() && r.rstack == base + [Here(J.Obj(members))]
    modifies r`rstack
    ensures r.Valid() && key == AtomOf(kind, value)
    ensures if members == [] then value == None && r.rstack == base + [Here(J.Obj([]))]
            else
              && at < |members| && value == Some(J.Str(members[at].name))
              && r.rstack == base + [Here(J.Obj(Without(members, at)))] + [Here(members[at].value)]
  {
    key, at, value := ReadAtom(kind, r);
  }

  // A key, its value, and the assignment of one to the other.
  method ReadPair(C: Classes, kind: Kind, val: Type, ghost i: nat, ghost v: Value, r: Reader,
                  pairs: seq<(Value, Value)>, ghost read: seq<(Value, Value)>,
                  ghost base: seq<Slot>, ghost members: seq<J.Member>, ghost idx: seq<nat>, ghost order: seq<nat>)
    returns (ok: bool, pairs': seq<(Value, Value)>, ghost read': seq<(Value, Value)>, ghost left: seq<Slot>,
             ghost members': seq<J.Member>, ghost idx': seq<nat>, ghost order': seq<nat>)
    requires ReadableClasses(C) && Readable(val) && WellTyped(C, Map(Scalar(kind), val), v) && NumbersOk(v)
    requires r.Valid() && r.rstack == base + [Here(J.Obj(members))]
    requires i < |v.pairs| && i <= |v.pairs| - FirstRead(Scalar(kind), v)
    requires Turned(C, Scalar(kind), val, v, i, members, idx, read, order) && pairs == Dropped(read)
    modifies r
    ensures !ok ==> Throws(C, Map(Scalar(kind), val), v)
    ensures ok ==> r.rpos == old(r.rpos) && r.Valid()
    ensures ok && i < |v.pairs| - FirstRead(Scalar(kind), v) ==>
              r.rstack == base + [Here(J.Obj(members'))] + left && |left| <= 1
    ensures ok ==> base <= r.rstack
    ensures ok ==> Turned(C, Scalar(kind), val, v, i + 1, members', idx', read', order') && pairs' == Dropped(read')
    decreases v != Nothing(C, Map(Scalar(kind), val)), v, 0, 0
  {
    pairs', read', left, members', idx', order' := pairs, read, [], members, idx, order;
    var k, at, value := ReadKey(kind, r, base, members);
    ghost var source := Source(C, val, v, idx, at);
    PairSource(C, kind, val, v, i, members, idx, read, order, at, value);
    var x;
    ok, x := ReadValue(C, val, source, r);
    if !ok {
      return;
    }
    pairs', read' := Assign(pairs, k, x), Put(read, k, x);
    AssignDropped(read, k, x);
    left, members', idx', order' :=
        PairDone(C, kind, val, v, i, members, idx, read, order, at, value, x, base, r.rstack);
  }

  // The stack behind a value that was read, and what is left to read.
  lemma {:induction false} PairDone(C: Classes, kind: Kind, val: Type, v: Value, i: nat, members: seq<J.Member>,
                                    idx: seq<nat>, read: seq<(Value, Value)>, order: seq<nat>, at: nat,
                                    value: Option<J.Json>, x: Value, base: seq<Slot>, stack: seq<Slot>)
    returns (left: seq<Slot>, members': seq<J.Member>, idx': seq<nat>, order': seq<nat>)
    requires WellTyped(C, Map(Scalar(kind), val), v) && NumbersOk(v)
    requires i < |v.pairs| && i <= |v.pairs| - FirstRead(Scalar(kind), v)
    requires Turned(C, Scalar(kind), val, v, i, members, idx, read, order)
    requires if members == [] then value == None else at < |members| && value == Some(J.Str(members[at].name))
    requires var source := Source(C, val, v, idx, at);
             && !Throws(C, val, source) && Same(Arrived(C, val, source), x)
             && Kept(if members == [] then base + [Here(J.Obj([]))]
                     else base + [Here(J.Obj(Without(members, at)))] + [Here(members[at].value)], stack)
    ensures i < |v.pairs| - FirstRead(Scalar(kind), v) ==>
              stack == base + [Here(J.Obj(members'))] + left && |left| <= 1
    ensures base <= stack
    ensures Turned(C, Scalar(kind), val, v, i + 1, members', idx', Put(read, AtomOf(kind, value), x), order')
  {
    PairSource(C, kind, val, v, i, members, idx, read, order, at, value);
    PairTurned(C, kind, val, v, i, members, idx, read, order, at, value, x);
    left, members', idx', order' := [], members, idx, order;
    if members == [] {
      var rest := LeftOver(base, Here(J.Obj([])), stack);
    } else {
      members', idx', order' := Without(members, at), Without(idx, at), order + [idx[at]];
      left := LeftOver(base + [Here(J.Obj(members'))], Here(members[at].value), stack);
    }
  }

  // What is left of a value above others.
  lemma {:induction false} LeftOver(below: seq<Slot>, value: Slot, after: seq<Slot>) returns (left: seq<Slot>)
    requires Kept(below + [value], after)
    ensures |left| <= 1 && after == below + left
  {
    left := after[|below|..];
    assert (below + [value])[..|below|] == below;
  }

  // ---------------------------------------------------------------------------
  // Lists and sets
  // ---------------------------------------------------------------------------

  method ReadList(C: Classes, elem: Type, set_: bool, ghost v: Value, r: Reader) returns (ok: bool, v': Value)
    requires ReadableClasses(C) && (elem.Scalar? || elem.Struct?) && Given(C, ListType(elem, set_), v)
    requires r.Valid() && r.rstack != [] && r.rstack[|r.rstack| - 1] == Here(Tree(C, ListType(elem, set_), v, false))
    modifies r
    ensures ok <==> !Throws(C, ListType(elem, set_), v)
    ensures ok ==>
              && r.Valid() && r.rpos == old(r.rpos) && Kept(old(r.rstack), r.rstack)
              && Same(Arrived(C, ListType(elem, set_), v), v')
    decreases v != Nothing(C, ListType(elem, set_)), v, 1
  {
    v' := Null;
    ghost var base := r.rstack[..|r.rstack| - 1];
    var size;
    ok, size := BeginList(C, elem, set_, v, r, base);
    if ok {
      var items;
      ok, items := ReadElements(C, elem, size, v, r, base);
      if !ok {
        ghost var k :| 0 <= k < |v.items| && Throws(C, elem, v.items[k]);
        ItemThrows(C, elem, set_, v, k);
      } else {
        ItemsSame(C, elem, set_, v, items);
        r.ReadListEnd();
        v' := Items(items);
      }
    }
  }

  // A list loses its head.
  method BeginList(C: Classes, elem: Type, set_: bool, ghost v: Value, r: Reader, ghost base: seq<Slot>)
    returns (ok: bool, size: int)
    requires Given(C, ListType(elem, set_), v)
    requires r.Valid() && r.rstack == base + [Here(Tree(C, ListType(elem, set_), v, false))]
    modifies r
    ensures ok <==> v != Null
    ensures v == Null ==> Throws(C, ListType(elem, set_), v)
    ensures ok ==>
              && r.Valid() && size == |v.items| && r.rpos == old(r.rpos) + [|base| + 1]
              && r.rstack == base + [Here(J.Arr(Elements(C, elem, v, false, 0))), Below]
  {
    if v != Null {
      ListHead(C, elem, set_, v);
    }
    var etype;
    ok, etype, size := r.ReadListBegin();
  }

  lemma {:induction false} ListHead(C: Classes, elem: Type, set_: bool, v: Value)
    requires v.Items?
    ensures var tree := Tree(C, ListType(elem, set_), v, false);
            && tree.Arr? && HasHead(tree.elems, 1) && J.ParseInt(tree.elems[1].text) == |v.items|
            && tree.elems[2..] == Elements(C, elem, v, false, 0)
  {
    J.ParseNumeral(|v.items|);
  }

  ghost predicate ItemsRead(C: Classes, elem: Type, v: Value, items: seq<Value>)
    requires v.Items? && |items| <= |v.items|
  {
    forall k :: 0 <= k < |items| ==> !Throws(C, elem, v.items[k]) && Same(Arrived(C, elem, v.items[k]), items[k])
  }

  lemma {:induction false} ItemThrows(C: Classes, elem: Type, set_: bool, v: Value, k: nat)
    requires v.Items? && k < |v.items| && Throws(C, elem, v.items[k])
    ensures Throws(C, ListType(elem, set_), v)
  {
  }

  lemma {:induction false} ItemsSame(C: Classes, elem: Type, set_: bool, v: Value, items: seq<Value>)
    requires v.Items? && |items| == |v.items| && ItemsRead(C, elem, v, items)
    ensures !Throws(C, ListType(elem, set_), v) && Same(Arrived(C, ListType(elem, set_), v), Items(items))
  {
  }

  // Its loop.
  method ReadElements(C: Classes, elem: Type, size: int, ghost v: Value, r: Reader, ghost base: seq<Slot>)
    returns (ok: bool, items: seq<Value>)
    requires ReadableClasses(C) && (elem.Scalar? || elem.Struct?)
    requires WellTyped(C, List(elem), v) && NumbersOk(v) && size == |v.items|
    requires r.Valid() && r.rstack == base + [Here(J.Arr(Elements(C, elem, v, false, 0))), Below]
    modifies r
    ensures !ok ==> exists k :: 0 <= k < |v.items| && Throws(C, elem, v.items[k])
    ensures ok ==> r.Valid() && r.rpos == old(r.rpos) && r.rstack == base + [Here(J.Arr([])), Below]
    ensures ok ==> |items| == |v.items| && ItemsRead(C, elem, v, items)
    decreases true, v, 0, 1
  {
    items := [];
    for i := 0 to size
      invariant r.Valid() && r.rpos == old(r.rpos)
      invariant r.rstack == base + [Here(J.Arr(Elements(C, elem, v, false, i))), Below]
      invariant |items| == i && ItemsRead(C, elem, v, items)
    {
      ok, items := ReadItem(C, elem, i, v, r, base, items);
      if !ok {
        return;
      }
    }
    ok := true;
  }

  // One turn of it.
  method ReadItem(C: Classes, elem: Type, ghost i: nat, ghost v: Value, r: Reader, ghost base: seq<Slot>,
                  items: seq<Value>)
    returns (ok: bool, items': seq<Value>)
    requires ReadableClasses(C) && (elem.Scalar? || elem.Struct?)
    requires WellTyped(C, List(elem), v) && NumbersOk(v) && |items| == i < |v.items| && ItemsRead(C, elem, v, items)
    requires r.Valid() && r.rstack == base + [Here(J.Arr(Elements(C, elem, v, false, i))), Below]
    modifies r
    ensures !ok ==> Throws(C, elem, v.items[i])
    ensures ok ==>
              && r.Valid() && r.rpos == old(r.rpos)
              && r.rstack == base + [Here(J.Arr(Elements(C, elem, v, false, i + 1))), Below]
              && |items'| == i + 1 && ItemsRead(C, elem, v, items')
    decreases true, v, 0, 0
  {
    ElementFirst(C, elem, v, false, i);
    var x;
    ok, x := ReadElement(C, elem, v.items[i], r, base, Elements(C, elem, v, false, i + 1));
    items' := items + [x];
  }

  // The next element is taken off the list.
  method ReadElement(C: Classes, elem: Type, ghost v: Value, r: Reader, ghost base: seq<Slot>, ghost rest: seq<J.Json>)
    returns (ok: bool, x: Value)
    requires ReadableClasses(C) && (elem.Scalar? || elem.Struct?) && WellTyped(C, elem, v) && NumbersOk(v)
    requires r.Valid() && r.rstack == base + [Here(J.Arr([Tree(C, elem, v, false)] + rest)), Below]
    modifies r
    ensures ok <==> !Throws(C, elem, v)
    ensures ok ==>
              && r.Valid() && r.rpos == old(r.rpos) && r.rstack == base + [Here(J.Arr(rest)), Below]
              && Same(Arrived(C, elem, v), x)
    decreases true, v, 1, 0
  {
    OnList(r.rstack, base, [Tree(C, elem, v, false)] + rest);
    match elem {
      case Scalar(kind) =>
        ghost var j, value;
        x, j, value := ReadAtom(kind, r);
        ok := true;
        assert r.rstack == base + [Here(J.Arr(rest)), Below];
      case Struct(cls) => ok, x := ReadShifted(C, cls, v, r, base, rest);
    }
  }

  // A struct is pushed while it is read, and popped behind an array.
  method ReadShifted(C: Classes, cls: string, ghost v: Value, r: Reader, ghost base: seq<Slot>, ghost rest: seq<J.Json>)
    returns (ok: bool, x: Value)
    requires ReadableClasses(C) && WellTyped(C, Struct(cls), v) && NumbersOk(v)
    requires r.Valid() && r.rstack == base + [Here(J.Arr([Tree(C, Struct(cls), v, false)] + rest)), Below]
    modifies r
    ensures ok <==> !Throws(C, Struct(cls), v)
    ensures ok ==>
              && r.Valid() && r.rpos == old(r.rpos) && r.rstack == base + [Here(J.Arr(rest)), Below]
              && Same(Arrived(C, Struct(cls), v), x)
    decreases true, v, 0, 2
  {
    x := Null;
    OnList(r.rstack, base, [Tree(C, Struct(cls), v, false)] + rest);
    r.ReadStructBegin();
    ghost var list := base + [Here(J.Arr(rest)), Below];
    assert r.rstack == list + [Here(Tree(C, Struct(cls), v, false))];
    var vars;
    ok, vars := ReadFields(C, cls, v, r);
    if ok {
      assert r.rstack == list + [Here(J.Obj([]))];
      OnList(r.rstack, base, rest);
      r.ReadStructEnd();
      x := Object(cls, vars);
    }
  }

  // The entry above a list stands for the list.
  lemma {:induction false} OnList(stack: seq<Slot>, base: seq<Slot>, elems: seq<J.Json>)
    requires base + [Here(J.Arr(elems)), Below] <= stack
    ensures Reader.Place(stack, |base| + 1) == |base| && stack[|base|] == Here(J.Arr(elems))
  {
    assert stack[|base|] == Here(J.Arr(elems)) && stack[|base| + 1] == Below;
    assert Reader.Place(stack, |base|) == |base|;
  }

  // ---------------------------------------------------------------------------
  // Messages
  // ---------------------------------------------------------------------------

  // A message as it is sent.
  function MessageText(name: string, mtype: nat, seqid: int, body: string): string {
    "[" + J.Join(["1", "\"" + name + "\"", J.Decimal(mtype), J.Numeral(seqid)] + [body]) + "]"
  }

  function Head(name: string, mtype: nat, seqid: int): (J.Json, J.Json, J.Json) {
    (J.Str(name), J.Num(J.Decimal(mtype)), J.Num(J.Numeral(seqid)))
  }

  function Message(name: string, mtype: nat, seqid: int, body: J.Json): J.Json {
    var head := Head(name, mtype, seqid);
    J.Arr([J.Num("1"), head.0, head.1, head.2, body])
  }

  // The name that is read, when it is the whole of what is between the quotation marks.
  function Heard(name: string): Option<string> {
    match J.ParseChars(name + "\"")
    case Done(heard, rest) => if rest == "" then Some(heard) else None
    case Failed => None
  }

  // It is the one that was sent exactly if that needs no escaping.
  lemma {:induction false} HeardPlain(name: string)
    ensures Heard(name) == Some(name) <==> J.Plain(name)
  {
    J.ParseUnescaped(name, "");
    assert name + "\"" + "" == name + "\"";
  }

  // A name can be read as another one.
  lemma {:induction false} HeardOther()
    ensures Heard("a\\/b") == Some("a/b")
  {
    var s := "a\\/b" + "\"";
    assert s[1..][2..] == "b\"" && "b\""[1..] == "\"" && "\""[1..] == "";
    assert J.ParseChars("\"") == J.Done("", "");
    assert J.ParseChars("b\"") == J.Done(['b'] + "", "");
    assert J.ParseChars(s[1..]) == J.Done(['/'] + (['b'] + ""), "");
    assert ['a'] + (['/'] + (['b'] + "")) == "a/b";
  }

  // Behind such a name a message is read exactly if its body is.
  lemma {:induction false} HeardMessage(name: string, mtype: nat, seqid: int, body: J.Json)
    requires Heard(name).Some? && J.Numeric(body)
    ensures J.Parse(MessageText(name, mtype, seqid, J.Print(body)))
         == if J.Legible(body) then J.Done(Message(Heard(name).value, mtype, seqid, J.Settled(body)), "") else J.Failed
  {
    var quoted := Quoted(name, mtype, seqid, J.Print(body));
    MessageElems(name, mtype, seqid, body);
    JoinMessage(name, mtype, seqid, J.Print(body));
    Opened("1" + ("," + ("\"" + quoted)));
  }

  lemma {:induction false} MessageElems(name: string, mtype: nat, seqid: int, body: J.Json)
    requires Heard(name).Some? && J.Numeric(body)
    ensures J.ParseElems("1" + ("," + ("\"" + Quoted(name, mtype, seqid, J.Print(body)))))
         == if J.Legible(body) then J.Done(Message(Heard(name).value, mtype, seqid, J.Settled(body)).elems, "")
            else J.Failed
  {
    var heard, tail := Heard(name).value, [J.Num(J.Decimal(mtype)), J.Num(J.Numeral(seqid)), J.Settled(body)];
    assert [J.Num("1")] + ([J.Str(heard)] + tail) == Message(heard, mtype, seqid, J.Settled(body)).elems;
    MessageTail(mtype, seqid, body);
    HeardFollowed(name, "," + Tail(mtype, seqid, J.Print(body)));
    VersionAndName(Quoted(name, mtype, seqid, J.Print(body)), heard, Tail(mtype, seqid, J.Print(body)));
  }

  lemma {:induction false} VersionAndName(quoted: string, name: string, rest: string)
    requires J.ParseChars(quoted) == J.Done(name, "," + rest)
    ensures J.ParseElems("1" + ("," + ("\"" + quoted)))
         == match J.ParseElems(rest)
            case Done(js, rest') => J.Done([J.Num("1")] + ([J.Str(name)] + js), rest')
            case Failed => J.Failed
  {
    SmallNumbers();
    J.StringNext(quoted, name, rest);
    J.NumberFirst("1", "\"" + quoted);
  }

  lemma {:induction false} HeardFollowed(name: string, rest: string)
    requires Heard(name).Some?
    ensures J.ParseChars(name + "\"" + rest) == J.Done(Heard(name).value, rest)
  {
    J.ParseFollowed(name + "\"", rest);
    assert "" + rest == rest;
  }

  lemma {:induction false} Opened(s: string)
    requires s != "" && s[0] != ']'
    ensures J.Parse("[" + s)
         == match J.ParseElems(s)
            case Done(elems, rest) => J.Done(J.Arr(elems), rest)
            case Failed => J.Failed
  {
    var text := "[" + s;
    assert text[1..] == s && text[1] == s[0];
  }

  lemma {:induction false} MessageTail(mtype: nat, seqid: int, body: J.Json)
    requires J.Numeric(body)
    ensures var tail := [J.Num(J.Decimal(mtype)), J.Num(J.Numeral(seqid)), body];
            J.ParseElems(Tail(mtype, seqid, J.Print(body)))
            == if J.Legible(body) then J.Done([tail[0], tail[1], J.Settled(body)], "") else J.Failed
  {
    var tail := [J.Num(J.Decimal(mtype)), J.Num(J.Numeral(seqid)), body];
    assert J.ElemTexts(tail) == [J.Decimal(mtype), J.Numeral(seqid), J.Print(body)];
    J.JoinElems(tail);
    NumeralOf(mtype);
    NumeralOf(seqid);
    MessageTree(tail[0], tail[1], body);
    J.ParsePrintElems(tail, "");
    assert J.PrintElems(tail) + "]" + "" == J.PrintElems(tail) + "]";
  }

  lemma {:induction false} MessageTree(a: J.Json, b: J.Json, body: J.Json)
    requires a.Num? && b.Num? && J.Legible(a) && J.Legible(b) && J.Numeric(body)
    ensures J.Numeric(J.Arr([a, b, body])) && (J.Legible(J.Arr([a, b, body])) <==> J.Legible(body))
    ensures J.SettledElems([a, b, body]) == [a, b, J.Settled(body)]
  {
    var elems := [a, b, body];
    assert elems[2] == body;
    SettledCons(a, [b, body]);
    SettledCons(b, [body]);
    SettledCons(body, []);
    assert [a] + [b, body] == elems && [b] + [body] == [b, body] && [body] + [] == [body];
  }

  // What is behind the name.
  function Tail(mtype: nat, seqid: int, body: string): string {
    J.Join([J.Decimal(mtype), J.Numeral(seqid), body]) + "]"
  }

  function Quoted(name: string, mtype: nat, seqid: int, body: string): string {
    name + "\"" + ("," + Tail(mtype, seqid, body))
  }

  lemma {:induction false} JoinMessage(name: string, mtype: nat, seqid: int, body: string)
    ensures MessageText(name, mtype, seqid, body)
         == "[" + ("1" + ("," + ("\"" + Quoted(name, mtype, seqid, body))))
  {
    var quoted, more := "\"" + name + "\"", [J.Decimal(mtype), J.Numeral(seqid), body];
    assert ["1", quoted, J.Decimal(mtype), J.Numeral(seqid)] + [body] == ["1"] + ([quoted] + more);
    J.JoinCons("1", [quoted] + more);
    J.JoinCons(quoted, more);
    Associated(name, J.Join(more));
  }

  lemma {:induction false} Associated(name: string, more: string)
    ensures "[" + ("1" + ("," + ("\"" + name + "\"" + ("," + more)))) + "]"
         == "[" + ("1" + ("," + ("\"" + (name + "\"" + ("," + (more + "]"))))))
  {
  }

  // With another name it is not read as what it is, if it is read at all.
  lemma {:induction false} OtherMessage(name: string, mtype: nat, seqid: int, body: string)
    requires !J.Plain(name)
    ensures match J.Parse(MessageText(name, mtype, seqid, body))
            case Done(Arr(elems), _) => |elems| < 2 || elems[1] != J.Str(name)
            case _ => true
  {
    var quoted := Quoted(name, mtype, seqid, body);
    J.ParseUnescaped(name, "," + Tail(mtype, seqid, body));
    JoinMessage(name, mtype, seqid, body);
    SmallNumbers();
    J.NumberFirst("1", "\"" + quoted);
    J.StringFirst(quoted);
    Opened("1" + ("," + ("\"" + quoted)));
  }

  // A struct sent in a message, whatever order the reader meets the members of objects in. Nothing is
  // sent when write throws.
  method Exchange(C: Classes, v: Value, name: string, mtype: nat, seqid: int)
    returns (sent: bool, head: Option<(J.Json, J.Json, J.Json)>, ok: bool, v': Value)
    requires v.Object? && ReadableClasses(C) && WellTyped(C, Struct(v.cls), v) && NumbersOk(v)
    ensures sent <==> Writes(v)
    ensures head == Some(Head(name, mtype, seqid)) <==> J.Plain(name) && sent && Sendable(v)
    ensures Heard(name).Some? ==>
              head == if sent && Sendable(v) then Some(Head(Heard(name).value, mtype, seqid)) else None
    ensures ok <==> Heard(name).Some? && sent && Sendable(v) && !Throws(C, Struct(v.cls), v)
    ensures ok ==> Same(Arrived(C, Struct(v.cls), v), v') && v'.Object? && |v'.vars| == |v.vars|
    ensures ok ==> forall k :: 0 <= k < |v.vars| ==> ReadAs(C, v, k, v'.vars[k])
    ensures ok && Same(v, v') <==> Heard(name).Some? && sent && Sendable(v) && Intact(C, Struct(v.cls), v)
  {
    head, ok, v' := None, false, Null;
    var w := new Writer();
    w.WriteMessageBegin(name, mtype, seqid);
    sent := WriteStruct(C, v, w);
    if !sent {
      return;
    }
    var text := w.WriteMessageEnd();
    ghost var tree := Tree(C, Struct(v.cls), v, true);
    assert text == MessageText(name, mtype, seqid, J.Print(tree));
    TreeLegible(C, Struct(v.cls), v);
    TreeSettled(C, Struct(v.cls), v);
    MessageHeard(name, mtype, seqid, tree);
    var r := new Reader(J.Num("0"));
    head := r.ReadMessageBegin(text);
    // The body is read behind a name that is heard.
    if head.Some? && Heard(name).Some? {
      ok, v' := ReadStruct(C, v.cls, v, r);
      IntactRead(C, v, ok, v');
      VarsRead(C, v, ok, v');
    }
    IntactArrives(C, Struct(v.cls), v);
  }

  // A scalar that is true is read as it is, and what is not as what a new struct has.
  ghost predicate ReadAs(C: Classes, v: Value, k: nat, x: Value)
    requires v.Object? && v.cls in C && |C[v.cls]| == |v.vars| && k < |v.vars|
  {
    if True(v.vars[k]) then v.vars[k].Atom? ==> x == v.vars[k] else Same(C[v.cls][k].initial, x)
  }

  lemma {:induction false} VarsRead(C: Classes, v: Value, ok: bool, v': Value)
    requires v.Object? && WellTyped(C, Struct(v.cls), v) && (ok ==> Same(Arrived(C, Struct(v.cls), v), v'))
    ensures ok ==> v'.Object? && |v'.vars| == |v.vars| && forall k :: 0 <= k < |v.vars| ==> ReadAs(C, v, k, v'.vars[k])
  {
    if ok {
      assert v'.Object? && |v'.vars| == |v.vars|;
      forall k | 0 <= k < |v.vars|
        ensures ReadAs(C, v, k, v'.vars[k])
      {
        FieldRead(C, v, v', k);
      }
    }
  }

  // What becomes of a message.
  lemma {:induction false} MessageHeard(name: string, mtype: nat, seqid: int, body: J.Json)
    requires J.Numeric(body)
    ensures Heard(name) == Some(name) <==> J.Plain(name)
    ensures var r := J.Parse(MessageText(name, mtype, seqid, J.Print(body)));
            && (Heard(name).Some? ==>
                  r == if J.Legible(body)
                       then J.Done(Message(Heard(name).value, mtype, seqid, J.Settled(body)), "") else J.Failed)
            && (r.Done? && r.value.Arr? && |r.value.elems| >= 2 && r.value.elems[1] == J.Str(name) ==> J.Plain(name))
  {
    HeardPlain(name);
    if Heard(name).Some? {
      HeardMessage(name, mtype, seqid, body);
    }
    if !J.Plain(name) {
      OtherMessage(name, mtype, seqid, J.Print(body));
    }
  }

  lemma {:induction false} IntactRead(C: Classes, v: Value, ok: bool, v': Value)
    requires v.Object? && WellTyped(C, Struct(v.cls), v) && NumbersOk(v) && (ok <==> !Throws(C, Struct(v.cls), v))
    requires ok ==> Same(Arrived(C, Struct(v.cls), v), v')
    ensures ok && Same(v, v') <==> Intact(C, Struct(v.cls), v)
  {
    var w := Arrived(C, Struct(v.cls), v);
    IntactArrives(C, Struct(v.cls), v);
    if ok && Same(v, w) {
      SameTransitive(v, w, v');
    }
    if ok && Same(v, v') {
      SameSymmetric(w, v');
      SameTransitive(v, v', w);
    }
  }
}
