// Which fields of a struct are sent with the JavaScript protocol, and what arrives of the others.
module JsonFields {
  import opened Wire
  import opened JsonWriter
  import opened JsonStructs
  import opened JsonTrees
  import opened JsonArrival
  import opened JsonNumbers
  import J = Json

  // What is true in JavaScript: a Boolean that is, a string with a character in it, a number that is
  // one and not zero, and anything else but null.
  ghost predicate True(x: Value) {
    match x
    case Null => false
    case Atom(BOOL, payload) => payload == "1"
    case Atom(STRING, payload) => |payload| > 0
    case Atom(_, payload) => payload != "NaN" && !(J.NumberText(payload) && NumericValue(payload) == 0.0)
    case Object(_, _) => true
    case Pairs(_) => true
    case Items(_) => true
  }

  lemma {:induction false} TrueIs(x: Value)
    ensures True(x) <==> !Falsy(x)
  {
    if x.Atom? {
      ZeroTextIs(x.payload);
    }
  }

  ghost predicate Sent(C: Classes, v: Value, k: nat)
    requires v.Object? && v.cls in C && k < |C[v.cls]|
  {
    var tree := Tree(C, Struct(v.cls), v, true);
    tree.Obj? && exists i :: 0 <= i < |tree.members| && tree.members[i].name == J.Numeral(C[v.cls][k].fid)
  }

  // Just the fields that are true are among the members written.
  lemma {:induction false} SentIfTrue(C: Classes, v: Value, k: nat)
    requires v.Object? && v.cls in C && |C[v.cls]| == |v.vars| && DistinctIds(C[v.cls]) && k < |v.vars|
    ensures Sent(C, v, k) <==> True(v.vars[k])
  {
    var members, idx := Members(C, v, true, 0), Written(v, 0);
    assert Tree(C, Struct(v.cls), v, true) == J.Obj(members);
    TrueIs(v.vars[k]);
    WrittenAll(v, 0);
    MembersLength(C, v, true, 0);
    if True(v.vars[k]) {
      var a :| 0 <= a < |idx| && idx[a] == k;
      MemberAt(C, v, true, 0, a);
    }
    if a :| 0 <= a < |members| && members[a].name == J.Numeral(C[v.cls][k].fid) {
      MemberAt(C, v, true, 0, a);
      J.ParseNumeral(C[v.cls][k].fid);
      J.ParseNumeral(C[v.cls][idx[a]].fid);
      assert idx[a] == k;
    }
  }

  // A scalar that is true arrives as it is, and what is not true as what a new struct has.
  lemma {:induction false} FieldArrives(C: Classes, v: Value, k: nat)
    requires v.Object? && WellTyped(C, Struct(v.cls), v) && k < |v.vars|
    ensures var w := Arrived(C, Struct(v.cls), v);
            && w.Object? && |w.vars| == |v.vars|
            && (!True(v.vars[k]) ==> w.vars[k] == C[v.cls][k].initial)
            && (True(v.vars[k]) && v.vars[k].Atom? ==> w.vars[k] == v.vars[k])
  {
    TrueIs(v.vars[k]);
    assert Arrived(C, Struct(v.cls), v).vars[k] == ArrivedVar(C, v, k);
  }

  // So it is with what has been read.
  lemma {:induction false} FieldRead(C: Classes, v: Value, v': Value, k: nat)
    requires v.Object? && WellTyped(C, Struct(v.cls), v) && k < |v.vars| && Same(Arrived(C, Struct(v.cls), v), v')
    ensures v'.Object? && |v'.vars| == |v.vars|
    ensures !True(v.vars[k]) ==> Same(C[v.cls][k].initial, v'.vars[k])
    ensures True(v.vars[k]) && v.vars[k].Atom? ==> v'.vars[k] == v.vars[k]
  {
    FieldArrives(C, v, k);
    assert Same(Arrived(C, Struct(v.cls), v).vars[k], v'.vars[k]);
  }
}
