// What becomes of a value that is written with the JavaScript protocol and read again, and exactly
// when that is the value itself.
module JsonArrival {
  import opened Wire
  import opened JsonWriter
  import opened JsonStructs
  import J = Json

  // ---------------------------------------------------------------------------
  // Values that differ in the order of the pairs of their maps only
  // ---------------------------------------------------------------------------

  ghost predicate Same(v: Value, w: Value)
    decreases v, 2
  {
    match v
    case Null => w == Null
    case Atom(_, _) => w == v
    case Object(cls, vars) =>
      w.Object? && w.cls == cls && |w.vars| == |vars| && forall k :: 0 <= k < |vars| ==> Same(vars[k], w.vars[k])
    case Pairs(pairs) =>
      && w.Pairs? && |w.pairs| == |pairs|
      && (forall i :: 0 <= i < |pairs| ==> KeptIn(v, i, w)) && (forall j :: 0 <= j < |w.pairs| ==> KeptFrom(v, w, j))
    case Items(items) => w.Items? && |w.items| == |items| && forall k :: 0 <= k < |items| ==> Same(items[k], w.items[k])
  }

  ghost predicate KeptIn(v: Value, i: nat, w: Value)
    requires v.Pairs? && w.Pairs? && i < |v.pairs|
    decreases v, 1
  {
    exists j :: 0 <= j < |w.pairs| && SamePair(v, i, w, j)
  }

  ghost predicate KeptFrom(v: Value, w: Value, j: nat)
    requires v.Pairs? && w.Pairs? && j < |w.pairs|
    decreases v, 1
  {
    exists i :: 0 <= i < |v.pairs| && SamePair(v, i, w, j)
  }

  ghost predicate SamePair(v: Value, i: nat, w: Value, j: nat)
    requires v.Pairs? && w.Pairs? && i < |v.pairs| && j < |w.pairs|
    decreases v, 0
  {
    w.pairs[j].0 == v.pairs[i].0 && Same(v.pairs[i].1, w.pairs[j].1)
  }

  lemma {:induction false} SameReflexive(v: Value)
    ensures Same(v, v)
  {
    match v
    case Null =>
    case Atom(_, _) =>
    case Object(_, vars) =>
      forall k | 0 <= k < |vars|
        ensures Same(vars[k], vars[k])
      {
        SameReflexive(vars[k]);
      }
    case Pairs(pairs) =>
      forall i | 0 <= i < |pairs|
        ensures KeptIn(v, i, v) && KeptFrom(v, v, i)
      {
        SameReflexive(pairs[i].1);
        assert SamePair(v, i, v, i);
      }
    case Items(items) =>
      forall k | 0 <= k < |items|
        ensures Same(items[k], items[k])
      {
        SameReflexive(items[k]);
      }
  }

  lemma {:induction false} SameSymmetric(v: Value, w: Value)
    requires Same(v, w)
    ensures Same(w, v)
    decreases v, 1
  {
    match v
    case Null =>
    case Atom(_, _) =>
    case Object(_, vars) =>
      forall k | 0 <= k < |vars|
        ensures Same(w.vars[k], vars[k])
      {
        SameSymmetric(vars[k], w.vars[k]);
      }
    case Pairs(_) => PairsSymmetric(v, w);
    case Items(items) =>
      forall k | 0 <= k < |items|
        ensures Same(w.items[k], items[k])
      {
        SameSymmetric(items[k], w.items[k]);
      }
  }

  lemma {:induction false} PairsSymmetric(v: Value, w: Value)
    requires v.Pairs? && Same(v, w)
    ensures Same(w, v)
    decreases v, 0
  {
    forall j | 0 <= j < |w.pairs|
      ensures KeptIn(w, j, v)
    {
      assert KeptFrom(v, w, j);
      var i :| 0 <= i < |v.pairs| && SamePair(v, i, w, j);
      SameSymmetric(v.pairs[i].1, w.pairs[j].1);
      assert SamePair(w, j, v, i);
    }
    forall i | 0 <= i < |v.pairs|
      ensures KeptFrom(w, v, i)
    {
      assert KeptIn(v, i, w);
      var j :| 0 <= j < |w.pairs| && SamePair(v, i, w, j);
      SameSymmetric(v.pairs[i].1, w.pairs[j].1);
      assert SamePair(w, j, v, i);
    }
  }

  lemma {:induction false} SameTransitive(u: Value, v: Value, w: Value)
    requires Same(u, v) && Same(v, w)
    ensures Same(u, w)
    decreases u, 1
  {
    match u
    case Null =>
    case Atom(_, _) =>
    case Object(_, vars) =>
      forall k | 0 <= k < |vars|
        ensures Same(vars[k], w.vars[k])
      {
        SameTransitive(vars[k], v.vars[k], w.vars[k]);
      }
    case Pairs(_) => PairsTransitive(u, v, w);
    case Items(items) =>
      forall k | 0 <= k < |items|
        ensures Same(items[k], w.items[k])
      {
        SameTransitive(items[k], v.items[k], w.items[k]);
      }
  }

  lemma {:induction false} PairsTransitive(u: Value, v: Value, w: Value)
    requires u.Pairs? && Same(u, v) && Same(v, w)
    ensures Same(u, w)
    decreases u, 0
  {
    forall i | 0 <= i < |u.pairs|
      ensures KeptIn(u, i, w)
    {
      assert KeptIn(u, i, v);
      var j :| 0 <= j < |v.pairs| && SamePair(u, i, v, j);
      assert KeptIn(v, j, w);
      var k :| 0 <= k < |w.pairs| && SamePair(v, j, w, k);
      SameTransitive(u.pairs[i].1, v.pairs[j].1, w.pairs[k].1);
      assert SamePair(u, i, w, k);
    }
    forall k | 0 <= k < |w.pairs|
      ensures KeptFrom(u, w, k)
    {
      assert KeptFrom(v, w, k);
      var j :| 0 <= j < |v.pairs| && SamePair(v, j, w, k);
      assert KeptFrom(u, v, j);
      var i :| 0 <= i < |u.pairs| && SamePair(u, i, v, j);
      SameTransitive(u.pairs[i].1, v.pairs[j].1, w.pairs[k].1);
      assert SamePair(u, i, w, k);
    }
  }

  // ---------------------------------------------------------------------------
  // What arrives
  // ---------------------------------------------------------------------------

  predicate Container(t: Type) { t.Map? || t.List? || t.Set? }

  // What is read from an empty object, which is no Boolean, nothing, or a new struct.
  function Empty(C: Classes, t: Type): Value {
    match t
    case Scalar(BOOL) => Atom(BOOL, "0")
    case Struct(cls) => Object(cls, if cls in C then Initial(C[cls]) else [])
    case _ => Null
  }

  // An assignment under this key replaces an object's prototype and adds no property.
  const PROTO := Atom(STRING, "__proto__")

  function Assign(pairs: seq<(Value, Value)>, key: Value, val: Value): seq<(Value, Value)> {
    if key == PROTO then pairs else Put(pairs, key, val)
  }

  function Dropped(pairs: seq<(Value, Value)>): seq<(Value, Value)> {
    if pairs == [] then [] else (if pairs[0].0 == PROTO then [] else [pairs[0]]) + Dropped(pairs[1..])
  }

  // Fields that are not sent keep the initial values of a new struct.
  function Arrived(C: Classes, t: Type, v: Value): Value
    decreases v, 1
  {
    match (t, v)
    case (Struct(_), Object(cls, vars)) =>
      Object(cls, seq(|vars|, k requires 0 <= k < |vars| => ArrivedVar(C, v, k)))
    case (Map(key, val), Pairs(_)) => Pairs(Dropped(ArrivedPairs(C, key, val, v)))
    case (List(elem), Items(items)) => Items(seq(|items|, k requires 0 <= k < |items| => Arrived(C, elem, items[k])))
    case (Set(elem), Items(items)) => Items(seq(|items|, k requires 0 <= k < |items| => Arrived(C, elem, items[k])))
    case (_, Null) => Empty(C, t)
    case _ => v
  }

  // All Boolean keys arrive as true; when there are two pairs, the second is read from an empty object.
  function ArrivedPairs(C: Classes, key: Type, val: Type, v: Value): seq<(Value, Value)>
    requires v.Pairs?
    decreases v, 0
  {
    var first := FirstRead(key, v);
    seq(|v.pairs| - first, i requires 0 <= i < |v.pairs| - first =>
      (ArrivedKey(v.pairs[first + i].0), Arrived(C, val, v.pairs[first + i].1)))
    + if 0 < first then [(Atom(BOOL, "0"), Empty(C, val))] else []
  }

  function ArrivedVar(C: Classes, v: Value, k: nat): Value
    requires v.Object? && k < |v.vars|
    decreases v, 0
  {
    if v.cls !in C || |C[v.cls]| != |v.vars| then v.vars[k]
    else if Falsy(v.vars[k]) then C[v.cls][k].initial
    else Arrived(C, C[v.cls][k].typ, v.vars[k])
  }

  function ArrivedKey(key: Value): Value {
    if key.Atom? && key.kind == BOOL then Atom(BOOL, "1") else key
  }

  lemma {:induction false} AssignDropped(pairs: seq<(Value, Value)>, key: Value, val: Value)
    ensures Assign(Dropped(pairs), key, val) == Dropped(Put(pairs, key, val))
  {
    if pairs == [] {
    } else if pairs[0].0 == key {
      DroppedCons((key, val), pairs[1..]);
      DroppedCons(pairs[0], pairs[1..]);
    } else {
      AssignDropped(pairs[1..], key, val);
      DroppedCons(pairs[0], pairs[1..]);
      DroppedCons(pairs[0], Put(pairs[1..], key, val));
      if pairs[0].0 != PROTO && key != PROTO {
        PutBehind(pairs[0], Dropped(pairs[1..]), key, val);
      }
    }
  }

  lemma {:induction false} DroppedCons(pair: (Value, Value), rest: seq<(Value, Value)>)
    ensures Dropped([pair] + rest) == if pair.0 == PROTO then Dropped(rest) else [pair] + Dropped(rest)
  {
    assert ([pair] + rest)[1..] == rest;
  }

  lemma {:induction false} PutBehind(pair: (Value, Value), rest: seq<(Value, Value)>, key: Value, val: Value)
    requires pair.0 != key
    ensures Put([pair] + rest, key, val) == [pair] + Put(rest, key, val)
  {
    assert ([pair] + rest)[1..] == rest;
  }

  lemma {:induction false} NotDropped(pairs: seq<(Value, Value)>)
    requires forall i :: 0 <= i < |pairs| ==> pairs[i].0 != PROTO
    ensures Dropped(pairs) == pairs
  {
    if pairs != [] {
      NotDropped(pairs[1..]);
    }
  }

  // What is dropped is what was under that key.
  lemma {:induction false} DroppedPairs(pairs: seq<(Value, Value)>)
    ensures forall p :: p in Dropped(pairs) <==> p in pairs && p.0 != PROTO
  {
    if pairs != [] {
      DroppedPairs(pairs[1..]);
      var rest := pairs[1..];
      assert forall p :: p in pairs <==> p == pairs[0] || p in rest;
    }
  }

  ghost predicate KeysDiffer(pairs: seq<(Value, Value)>) {
    forall i, j :: 0 <= i < j < |pairs| ==> pairs[i].0 != pairs[j].0
  }

  ghost predicate HasProto(pairs: seq<(Value, Value)>) {
    exists i :: 0 <= i < |pairs| && pairs[i].0 == PROTO
  }

  lemma {:induction false} DroppedLength(pairs: seq<(Value, Value)>)
    requires KeysDiffer(pairs)
    ensures |Dropped(pairs)| == |pairs| - (if HasProto(pairs) then 1 else 0)
  {
    if pairs != [] {
      var rest := pairs[1..];
      if pairs[0].0 == PROTO {
        NotDropped(rest);
      } else {
        DroppedLength(rest);
        assert HasProto(pairs) ==> HasProto(rest) by {
          if HasProto(pairs) {
            var i :| 0 <= i < |pairs| && pairs[i].0 == PROTO;
            assert rest[i - 1].0 == PROTO;
          }
        }
        if HasProto(rest) {
          var i :| 0 <= i < |rest| && rest[i].0 == PROTO;
          assert pairs[i + 1].0 == PROTO;
        }
      }
    }
  }

  // So what is the same stays the same.
  lemma {:induction false} SameDropped(a: seq<(Value, Value)>, b: seq<(Value, Value)>)
    requires KeysDiffer(a) && KeysDiffer(b) && Same(Pairs(a), Pairs(b))
    ensures Same(Pairs(Dropped(a)), Pairs(Dropped(b)))
  {
    var v, w := Pairs(a), Pairs(b);
    assert HasProto(a) <==> HasProto(b) by {
      if HasProto(a) {
        var i :| 0 <= i < |a| && a[i].0 == PROTO;
        assert KeptIn(v, i, w);
      }
      if HasProto(b) {
        var j :| 0 <= j < |b| && b[j].0 == PROTO;
        assert KeptFrom(v, w, j);
      }
    }
    DroppedLength(a);
    DroppedLength(b);
    DroppedPairs(a);
    DroppedPairs(b);
    forall i | 0 <= i < |Dropped(a)|
      ensures KeptIn(Pairs(Dropped(a)), i, Pairs(Dropped(b)))
    {
      DroppedIn(a, b, i);
    }
    forall j | 0 <= j < |Dropped(b)|
      ensures KeptFrom(Pairs(Dropped(a)), Pairs(Dropped(b)), j)
    {
      DroppedFrom(a, b, j);
    }
  }

  lemma {:induction false} DroppedIn(a: seq<(Value, Value)>, b: seq<(Value, Value)>, i: nat)
    requires forall i :: 0 <= i < |a| ==> KeptIn(Pairs(a), i, Pairs(b))
    requires i < |Dropped(a)|
    ensures KeptIn(Pairs(Dropped(a)), i, Pairs(Dropped(b)))
  {
    DroppedPairs(a);
    DroppedPairs(b);
    var p := Dropped(a)[i];
    assert p in a;
    var i' :| 0 <= i' < |a| && a[i'] == p;
    assert KeptIn(Pairs(a), i', Pairs(b));
    var j' :| 0 <= j' < |b| && SamePair(Pairs(a), i', Pairs(b), j');
    assert b[j'] in Dropped(b);
    var j :| 0 <= j < |Dropped(b)| && Dropped(b)[j] == b[j'];
    assert SamePair(Pairs(Dropped(a)), i, Pairs(Dropped(b)), j);
  }

  lemma {:induction false} DroppedFrom(a: seq<(Value, Value)>, b: seq<(Value, Value)>, j: nat)
    requires forall j :: 0 <= j < |b| ==> KeptFrom(Pairs(a), Pairs(b), j)
    requires j < |Dropped(b)|
    ensures KeptFrom(Pairs(Dropped(a)), Pairs(Dropped(b)), j)
  {
    DroppedPairs(a);
    DroppedPairs(b);
    var p := Dropped(b)[j];
    assert p in b;
    var j' :| 0 <= j' < |b| && b[j'] == p;
    assert KeptFrom(Pairs(a), Pairs(b), j');
    var i' :| 0 <= i' < |a| && SamePair(Pairs(a), i', Pairs(b), j');
    assert a[i'] in Dropped(a);
    var i :| 0 <= i < |Dropped(a)| && Dropped(a)[i] == a[i'];
    assert SamePair(Pairs(Dropped(a)), i, Pairs(Dropped(b)), j);
  }

  // Whether something throws, for what readMapBegin and the like want is an array.
  ghost predicate Throws(C: Classes, t: Type, v: Value)
    decreases v
  {
    match (t, v)
    case (Struct(_), Object(cls, vars)) =>
      && cls in C && |C[cls]| == |vars|
      && exists k :: 0 <= k < |vars| && !Falsy(vars[k]) && Throws(C, C[cls][k].typ, vars[k])
    case (Map(key, val), Pairs(pairs)) =>
      || (exists i :: FirstRead(key, v) <= i < |pairs| && Throws(C, val, pairs[i].1))
      || (0 < FirstRead(key, v) && Container(val))
    case (List(elem), Items(items)) => exists k :: 0 <= k < |items| && Throws(C, elem, items[k])
    case (Set(elem), Items(items)) => exists k :: 0 <= k < |items| && Throws(C, elem, items[k])
    case (_, Null) => Container(t)
    case _ => false
  }

  // ---------------------------------------------------------------------------
  // When a value arrives as it is
  // ---------------------------------------------------------------------------

  // What is false in JavaScript has to be what a new struct has there, and there must be no key __proto__
  // and no false key but next to a true one, with the values that then arrive.
  ghost predicate Intact(C: Classes, t: Type, v: Value)
    decreases v
  {
    match (t, v)
    case (Struct(_), Object(cls, vars)) =>
      && cls in C && |C[cls]| == |vars|
      && forall k :: 0 <= k < |vars| ==>
           if Falsy(vars[k]) then vars[k] == C[cls][k].initial else Intact(C, C[cls][k].typ, vars[k])
    case (Map(key, val), Pairs(pairs)) =>
      if key != Scalar(BOOL) then forall i :: 0 <= i < |pairs| ==> pairs[i].0 != PROTO && Intact(C, val, pairs[i].1)
      else if |pairs| <= 1 then
        forall i :: 0 <= i < |pairs| ==> pairs[i].0 == Atom(BOOL, "1") && Intact(C, val, pairs[i].1)
      else BothIntact(C, val, v)
    case (List(elem), Items(items)) => forall k :: 0 <= k < |items| ==> Intact(C, elem, items[k])
    case (Set(elem), Items(items)) => forall k :: 0 <= k < |items| ==> Intact(C, elem, items[k])
    case _ => true
  }

  // Of two pairs with Boolean keys, the value that is written last arrives under true.
  ghost predicate BothIntact(C: Classes, val: Type, v: Value)
    requires v.Pairs? && |v.pairs| >= 2
    decreases v, 0
  {
    var a, b := v.pairs[0], v.pairs[1];
    && !Container(val)
    && if b.0 == Atom(BOOL, "1") then Same(a.1, Empty(C, val)) && Intact(C, val, b.1)
       else Same(b.1, Empty(C, val)) && !Throws(C, val, b.1) && Same(a.1, Arrived(C, val, b.1))
  }

  // Values that arrive as they are are exactly those.
  lemma {:induction false} IntactArrives(C: Classes, t: Type, v: Value)
    requires WellTyped(C, t, v) && NumbersOk(v)
    ensures Intact(C, t, v) <==> !Throws(C, t, v) && Same(v, Arrived(C, t, v))
    decreases v
  {
    match t
    case Scalar(_) =>
    case Struct(cls) => VarsIntact(C, v);
    case Map(key, val) =>
      if key != Scalar(BOOL) {
        PairsIntact(C, key, val, v);
      } else if |v.pairs| <= 1 {
        KeyIntact(C, val, v);
      } else {
        KeysIntact(C, val, v);
      }
    case List(elem) => ItemsIntact(C, elem, v, t);
    case Set(elem) => ItemsIntact(C, elem, v, t);
  }

  lemma {:induction false} VarsIntact(C: Classes, v: Value)
    requires v.Object? && WellTyped(C, Struct(v.cls), v) && NumbersOk(v)
    ensures Intact(C, Struct(v.cls), v) <==>
            !Throws(C, Struct(v.cls), v) && Same(v, Arrived(C, Struct(v.cls), v))
    decreases v, 0
  {
    var w := Arrived(C, Struct(v.cls), v);
    assert forall k :: 0 <= k < |v.vars| ==> w.vars[k] == ArrivedVar(C, v, k);
    forall k | 0 <= k < |v.vars|
      ensures if Falsy(v.vars[k]) then Same(v.vars[k], w.vars[k]) <==> v.vars[k] == C[v.cls][k].initial
              else Intact(C, C[v.cls][k].typ, v.vars[k]) <==>
                   !Throws(C, C[v.cls][k].typ, v.vars[k]) && Same(v.vars[k], w.vars[k])
    {
      if !Falsy(v.vars[k]) {
        IntactArrives(C, C[v.cls][k].typ, v.vars[k]);
      }
    }
  }

  lemma {:induction false} ItemsIntact(C: Classes, elem: Type, v: Value, t: Type)
    requires (t == List(elem) || t == Set(elem)) && WellTyped(C, t, v) && NumbersOk(v)
    ensures Intact(C, t, v) <==> !Throws(C, t, v) && Same(v, Arrived(C, t, v))
    decreases v, 0
  {
    var w := Arrived(C, t, v);
    forall k | 0 <= k < |v.items|
      ensures Intact(C, elem, v.items[k]) <==> !Throws(C, elem, v.items[k]) && Same(v.items[k], w.items[k])
    {
      IntactArrives(C, elem, v.items[k]);
    }
  }

  lemma {:induction false} PairsIntact(C: Classes, key: Type, val: Type, v: Value)
    requires WellTyped(C, Map(key, val), v) && NumbersOk(v) && key != Scalar(BOOL)
    ensures Intact(C, Map(key, val), v) <==>
            !Throws(C, Map(key, val), v) && Same(v, Arrived(C, Map(key, val), v))
    decreases v, 0
  {
    var pairs := ArrivedPairs(C, key, val, v);
    forall i | 0 <= i < |v.pairs|
      ensures pairs[i].0 == v.pairs[i].0
      ensures Intact(C, val, v.pairs[i].1) <==> !Throws(C, val, v.pairs[i].1) && Same(v.pairs[i].1, pairs[i].1)
    {
      ArrivedAt(C, key, val, v, i);
      IntactArrives(C, val, v.pairs[i].1);
    }
    OtherKeysIntact(C, key, val, v, pairs);
  }

  lemma {:induction false} OtherKeysIntact(C: Classes, key: Type, val: Type, v: Value, pairs: seq<(Value, Value)>)
    requires v.Pairs? && DistinctKeys(v.pairs) && key != Scalar(BOOL)
    requires pairs == ArrivedPairs(C, key, val, v) && |pairs| == |v.pairs|
    requires forall i :: 0 <= i < |v.pairs| ==> pairs[i].0 == v.pairs[i].0
    requires forall i :: 0 <= i < |v.pairs| ==>
               (Intact(C, val, v.pairs[i].1) <==> !Throws(C, val, v.pairs[i].1) && Same(v.pairs[i].1, pairs[i].1))
    ensures Intact(C, Map(key, val), v) <==>
            !Throws(C, Map(key, val), v) && Same(v, Arrived(C, Map(key, val), v))
  {
    SameKept(v, pairs);
    PairsThrow(C, key, val, v);
    assert HasProto(pairs) <==> exists i :: 0 <= i < |v.pairs| && v.pairs[i].0 == PROTO;
  }

  lemma {:induction false} PairsThrow(C: Classes, key: Type, val: Type, v: Value)
    requires v.Pairs? && key != Scalar(BOOL)
    ensures Throws(C, Map(key, val), v) <==> exists i :: 0 <= i < |v.pairs| && Throws(C, val, v.pairs[i].1)
  {
  }

  // Pairs that keep their places, but for what is dropped.
  lemma {:induction false} SameKept(v: Value, pairs: seq<(Value, Value)>)
    requires v.Pairs? && DistinctKeys(v.pairs) && |pairs| == |v.pairs|
    requires forall i :: 0 <= i < |v.pairs| ==> pairs[i].0 == v.pairs[i].0
    ensures Same(v, Pairs(Dropped(pairs))) <==>
            !HasProto(pairs) && forall i :: 0 <= i < |v.pairs| ==> Same(v.pairs[i].1, pairs[i].1)
  {
    DroppedLength(pairs);
    if !HasProto(pairs) {
      NotDropped(pairs);
      SameInOrder(v, Pairs(pairs));
    }
  }

  lemma {:induction false} ArrivedAt(C: Classes, key: Type, val: Type, v: Value, i: nat)
    requires WellTyped(C, Map(key, val), v) && FirstRead(key, v) <= i < |v.pairs|
    ensures |ArrivedPairs(C, key, val, v)| == |v.pairs| - FirstRead(key, v) + (if 0 < FirstRead(key, v) then 1 else 0)
    ensures ArrivedPairs(C, key, val, v)[i - FirstRead(key, v)]
         == (if key == Scalar(BOOL) then Atom(BOOL, "1") else v.pairs[i].0, Arrived(C, val, v.pairs[i].1))
  {
    assert WellTyped(C, key, v.pairs[i].0);
    var first, pairs := FirstRead(key, v), v.pairs;
    var kept := seq(|pairs| - first, i requires 0 <= i < |pairs| - first =>
                      (ArrivedKey(pairs[first + i].0), Arrived(C, val, pairs[first + i].1)));
    assert kept[i - first] == (ArrivedKey(pairs[i].0), Arrived(C, val, pairs[i].1));
  }

  // The pairs that arrive.
  ghost predicate PairsArrived(C: Classes, key: Type, val: Type, v: Value, pairs: seq<(Value, Value)>)
    requires v.Pairs?
  {
    var first, n := FirstRead(key, v), |v.pairs| - FirstRead(key, v);
    && |pairs| == n + (if 0 < first then 1 else 0)
    && (forall i :: 0 <= i < n ==>
          pairs[i] == (ArrivedKey(v.pairs[first + i].0), Arrived(C, val, v.pairs[first + i].1)))
    && (0 < first ==> pairs[n] == (Atom(BOOL, "0"), Empty(C, val)))
  }

  lemma {:induction false} MapArrived(C: Classes, key: Type, val: Type, v: Value)
    requires v.Pairs?
    ensures PairsArrived(C, key, val, v, ArrivedPairs(C, key, val, v))
  {
  }

  // Different pairs arrive under different keys.
  lemma {:induction false} ArrivedKeysDiffer(C: Classes, key: Type, val: Type, v: Value, a: nat, b: nat)
    requires WellTyped(C, Map(key, val), v) && a != b
    requires FirstRead(key, v) <= a < |v.pairs| && FirstRead(key, v) <= b < |v.pairs|
    ensures ArrivedKey(v.pairs[a].0) != ArrivedKey(v.pairs[b].0)
  {
    assert WellTyped(C, key, v.pairs[a].0) && WellTyped(C, key, v.pairs[b].0);
    assert v.pairs[if a < b then a else b].0 != v.pairs[if a < b then b else a].0;
  }

  lemma {:induction false} ArrivedDiffer(C: Classes, key: Type, val: Type, v: Value)
    requires WellTyped(C, Map(key, val), v)
    ensures KeysDiffer(ArrivedPairs(C, key, val, v))
  {
    var first, pairs := FirstRead(key, v), ArrivedPairs(C, key, val, v);
    MapArrived(C, key, val, v);
    forall i, j | 0 <= i < j < |pairs|
      ensures pairs[i].0 != pairs[j].0
    {
      if j < |v.pairs| - first {
        ArrivedKeysDiffer(C, key, val, v, first + i, first + j);
      } else {
        BooleanKeys(C, val, v);
      }
    }
  }

  // Pairs with the same keys in the same order.
  lemma {:induction false} SameInOrder(v: Value, w: Value)
    requires v.Pairs? && w.Pairs? && |w.pairs| == |v.pairs| && DistinctKeys(v.pairs)
    requires forall i :: 0 <= i < |v.pairs| ==> w.pairs[i].0 == v.pairs[i].0
    ensures Same(v, w) <==> forall i :: 0 <= i < |v.pairs| ==> Same(v.pairs[i].1, w.pairs[i].1)
  {
    forall i | 0 <= i < |v.pairs|
      ensures Same(v.pairs[i].1, w.pairs[i].1) ==> KeptIn(v, i, w) && KeptFrom(v, w, i)
      ensures KeptIn(v, i, w) ==> Same(v.pairs[i].1, w.pairs[i].1)
    {
      assert SamePair(v, i, w, i) <==> Same(v.pairs[i].1, w.pairs[i].1);
      if KeptIn(v, i, w) {
        KeptInOrder(v, i, w);
      }
    }
  }

  lemma {:induction false} KeptInOrder(v: Value, i: nat, w: Value)
    requires v.Pairs? && w.Pairs? && |w.pairs| == |v.pairs| && DistinctKeys(v.pairs) && i < |v.pairs|
    requires forall i :: 0 <= i < |v.pairs| ==> w.pairs[i].0 == v.pairs[i].0
    requires KeptIn(v, i, w)
    ensures Same(v.pairs[i].1, w.pairs[i].1)
  {
    var j :| 0 <= j < |w.pairs| && SamePair(v, i, w, j);
    assert j == i;
  }

  lemma {:induction false} KeyIntact(C: Classes, val: Type, v: Value)
    requires WellTyped(C, Map(Scalar(BOOL), val), v) && NumbersOk(v) && |v.pairs| <= 1
    ensures Intact(C, Map(Scalar(BOOL), val), v) <==>
            !Throws(C, Map(Scalar(BOOL), val), v) && Same(v, Arrived(C, Map(Scalar(BOOL), val), v))
    decreases v, 0
  {
    if v.pairs == [] {
      NoKey(C, val, v);
    } else {
      MapArrived(C, Scalar(BOOL), val, v);
      IntactArrives(C, val, v.pairs[0].1);
      BooleanKeys(C, val, v);
      OneKey(C, val, v);
    }
  }

  lemma {:induction false} BooleanKeys(C: Classes, val: Type, v: Value)
    requires WellTyped(C, Map(Scalar(BOOL), val), v)
    ensures forall i :: 0 <= i < |v.pairs| ==> ArrivedKey(v.pairs[i].0) == Atom(BOOL, "1")
  {
    forall i | 0 <= i < |v.pairs|
      ensures ArrivedKey(v.pairs[i].0) == Atom(BOOL, "1")
    {
      assert WellTyped(C, Scalar(BOOL), v.pairs[i].0);
    }
  }

  lemma {:induction false} NoKey(C: Classes, val: Type, v: Value)
    requires v.Pairs? && v.pairs == []
    ensures var t := Map(Scalar(BOOL), val);
            Intact(C, t, v) && !Throws(C, t, v) && Same(v, Arrived(C, t, v))
  {
    MapArrived(C, Scalar(BOOL), val, v);
    NotDropped(ArrivedPairs(C, Scalar(BOOL), val, v));
  }

  lemma {:induction false} OneKey(C: Classes, val: Type, v: Value)
    requires v.Pairs? && |v.pairs| == 1
    requires var x := v.pairs[0].1; Intact(C, val, x) <==> !Throws(C, val, x) && Same(x, Arrived(C, val, x))
    requires ArrivedKey(v.pairs[0].0) == Atom(BOOL, "1")
    requires PairsArrived(C, Scalar(BOOL), val, v, ArrivedPairs(C, Scalar(BOOL), val, v))
    ensures var t := Map(Scalar(BOOL), val);
            Intact(C, t, v) <==> !Throws(C, t, v) && Same(v, Arrived(C, t, v))
  {
    var t, x := Map(Scalar(BOOL), val), v.pairs[0].1;
    NotDropped(ArrivedPairs(C, Scalar(BOOL), val, v));
    OnePair(v, Arrived(C, t, v));
    assert Throws(C, t, v) <==> Throws(C, val, x);
    assert Intact(C, t, v) <==> v.pairs[0].0 == Atom(BOOL, "1") && Intact(C, val, x);
  }

  lemma {:induction false} KeysIntact(C: Classes, val: Type, v: Value)
    requires WellTyped(C, Map(Scalar(BOOL), val), v) && NumbersOk(v) && |v.pairs| >= 2
    ensures Intact(C, Map(Scalar(BOOL), val), v) <==>
            !Throws(C, Map(Scalar(BOOL), val), v) && Same(v, Arrived(C, Map(Scalar(BOOL), val), v))
    decreases v, 0
  {
    TwoKeys(C, val, v);
    IntactArrives(C, val, v.pairs[1].1);
    MapArrived(C, Scalar(BOOL), val, v);
    BothKeys(C, val, v);
  }

  lemma {:induction false} BothKeys(C: Classes, val: Type, v: Value)
    requires v.Pairs? && |v.pairs| == 2
    requires (v.pairs[0].0, v.pairs[1].0) == (Atom(BOOL, "0"), Atom(BOOL, "1"))
          || (v.pairs[0].0, v.pairs[1].0) == (Atom(BOOL, "1"), Atom(BOOL, "0"))
    requires var x := v.pairs[1].1; Intact(C, val, x) <==> !Throws(C, val, x) && Same(x, Arrived(C, val, x))
    requires PairsArrived(C, Scalar(BOOL), val, v, ArrivedPairs(C, Scalar(BOOL), val, v))
    ensures var t := Map(Scalar(BOOL), val);
            Intact(C, t, v) <==> !Throws(C, t, v) && Same(v, Arrived(C, t, v))
  {
    var t := Map(Scalar(BOOL), val);
    BothArrive(C, val, v);
    TwoPairs(v, Arrived(C, t, v));
    SecondThrows(C, val, v);
    assert Intact(C, t, v) <==> BothIntact(C, val, v);
  }

  lemma {:induction false} BothArrive(C: Classes, val: Type, v: Value)
    requires v.Pairs? && |v.pairs| == 2 && v.pairs[1].0.Atom? && v.pairs[1].0.kind == BOOL
    requires PairsArrived(C, Scalar(BOOL), val, v, ArrivedPairs(C, Scalar(BOOL), val, v))
    ensures Arrived(C, Map(Scalar(BOOL), val), v)
         == Pairs([(Atom(BOOL, "1"), Arrived(C, val, v.pairs[1].1)), (Atom(BOOL, "0"), Empty(C, val))])
  {
    NotDropped(ArrivedPairs(C, Scalar(BOOL), val, v));
  }

  lemma {:induction false} SecondThrows(C: Classes, val: Type, v: Value)
    requires v.Pairs? && |v.pairs| == 2
    ensures Throws(C, Map(Scalar(BOOL), val), v) <==> Throws(C, val, v.pairs[1].1) || Container(val)
  {
  }

  lemma {:induction false} OnePair(v: Value, w: Value)
    requires v.Pairs? && w.Pairs? && |v.pairs| == |w.pairs| == 1
    ensures Same(v, w) <==> SamePair(v, 0, w, 0)
  {
    assert KeptIn(v, 0, w) <==> SamePair(v, 0, w, 0);
    assert KeptFrom(v, w, 0) <==> SamePair(v, 0, w, 0);
  }

  lemma {:induction false} TwoPairs(v: Value, w: Value)
    requires v.Pairs? && w.Pairs? && |v.pairs| == |w.pairs| == 2
    requires w.pairs[0].0 != w.pairs[1].0
    ensures v.pairs[0].0 == w.pairs[0].0 && v.pairs[1].0 == w.pairs[1].0 ==>
              (Same(v, w) <==> SamePair(v, 0, w, 0) && SamePair(v, 1, w, 1))
    ensures v.pairs[0].0 == w.pairs[1].0 && v.pairs[1].0 == w.pairs[0].0 ==>
              (Same(v, w) <==> SamePair(v, 0, w, 1) && SamePair(v, 1, w, 0))
  {
    assert KeptIn(v, 0, w) <==> SamePair(v, 0, w, 0) || SamePair(v, 0, w, 1);
    assert KeptIn(v, 1, w) <==> SamePair(v, 1, w, 0) || SamePair(v, 1, w, 1);
    assert KeptFrom(v, w, 0) <==> SamePair(v, 0, w, 0) || SamePair(v, 1, w, 0);
    assert KeptFrom(v, w, 1) <==> SamePair(v, 0, w, 1) || SamePair(v, 1, w, 1);
  }

  // There are only two keys.
  lemma {:induction false} TwoKeys(C: Classes, val: Type, v: Value)
    requires WellTyped(C, Map(Scalar(BOOL), val), v) && NumbersOk(v) && |v.pairs| >= 2
    ensures |v.pairs| == 2
    ensures (v.pairs[0].0, v.pairs[1].0) == (Atom(BOOL, "0"), Atom(BOOL, "1"))
         || (v.pairs[0].0, v.pairs[1].0) == (Atom(BOOL, "1"), Atom(BOOL, "0"))
  {
    forall i | 0 <= i < |v.pairs|
      ensures v.pairs[i].0 == Atom(BOOL, "0") || v.pairs[i].0 == Atom(BOOL, "1")
    {
      assert KeyOk(v.pairs[i].0) && WellTyped(C, Scalar(BOOL), v.pairs[i].0);
    }
    var a, b, c := v.pairs[0].0, v.pairs[1].0, v.pairs[|v.pairs| - 1].0;
    assert a != b && a != c;
  }

  // A field that is zero and starts as null does not arrive.
  lemma {:induction false} ZeroLost(C: Classes, cls: string)
    requires cls in C && C[cls] == [Field(1, Scalar(I32), Null)]
    ensures var t, v := Struct(cls), Object(cls, [Atom(I32, "0")]);
            !Intact(C, t, v) && Arrived(C, t, v) == Object(cls, [Null])
  {
    J.DecimalIsNumber(0);
    assert J.Decimal(0) == "0" && "0"[1..] == "";
    var v := Object(cls, [Atom(I32, "0")]);
    assert Falsy(v.vars[0]) && ArrivedVar(C, v, 0) == Null;
    assert Arrived(C, Struct(cls), v).vars == [Null];
  }

  // A false key arrives as a true one.
  lemma {:induction false} FalseKeyLost(C: Classes)
    ensures var t, v := Map(Scalar(BOOL), Scalar(I32)), Pairs([(Atom(BOOL, "0"), Atom(I32, "5"))]);
            !Intact(C, t, v) && Arrived(C, t, v) == Pairs([(Atom(BOOL, "1"), Atom(I32, "5"))])
  {
    var w := Pairs([(Atom(BOOL, "0"), Atom(I32, "5"))]);
    assert w.pairs[0].0 != Atom(BOOL, "1");
    MapArrived(C, Scalar(BOOL), Scalar(I32), w);
    assert ArrivedPairs(C, Scalar(BOOL), Scalar(I32), w) == [(Atom(BOOL, "1"), Atom(I32, "5"))];
    NotDropped([(Atom(BOOL, "1"), Atom(I32, "5"))]);
  }

  // What is under the key __proto__ does not arrive.
  lemma {:induction false} ProtoLost(C: Classes)
    ensures var t, v := Map(Scalar(STRING), Scalar(I32)), Pairs([(Atom(STRING, "__proto__"), Atom(I32, "5"))]);
            !Intact(C, t, v) && Arrived(C, t, v) == Pairs([])
  {
    var w := Pairs([(PROTO, Atom(I32, "5"))]);
    assert w.pairs[0].0 == PROTO;
    MapArrived(C, Scalar(STRING), Scalar(I32), w);
    assert ArrivedPairs(C, Scalar(STRING), Scalar(I32), w) == [(PROTO, Atom(I32, "5"))];
    DroppedCons((PROTO, Atom(I32, "5")), []);
    assert [(PROTO, Atom(I32, "5"))] + [] == [(PROTO, Atom(I32, "5"))];
  }
}
