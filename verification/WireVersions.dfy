// Reading under one version of the specs what was written under another.
module WireVersions {
  import opened Wire
  import opened Serialization

  // ---------------------------------------------------------------------------
  // When versions go together
  // ---------------------------------------------------------------------------

  // Every struct named in a type has a class.
  predicate Known(C: Classes, t: Type) {
    match t
    case Scalar(_) => true
    case Struct(cls) => cls in C
    case Map(key, val) => Known(C, key) && Known(C, val)
    case List(elem) => Known(C, elem)
    case Set(elem) => Known(C, elem)
  }

  ghost predicate WellFormed(C: Classes) {
    && UniqueIds(C)
    && forall cls :: cls in C ==> forall i :: 0 <= i < |C[cls]| ==> Known(C, C[cls][i].typ)
  }

  // An id that both versions of a class use has the same spec in both, or another wire type.
  ghost predicate Compatible(R: Classes, W: Classes) {
    && WellFormed(R) && WellFormed(W)
    && forall cls :: cls in R && cls in W ==> FieldsCompatible(R[cls], W[cls])
  }

  ghost predicate FieldsCompatible(fs: seq<Field>, gs: seq<Field>) {
    forall i, j :: 0 <= i < |fs| && 0 <= j < |gs| && fs[i].fid == gs[j].fid ==>
      fs[i].typ == gs[j].typ || Tag(fs[i].typ) != Tag(gs[j].typ)
  }

  // ---------------------------------------------------------------------------
  // What the reader gets
  // ---------------------------------------------------------------------------

  // The writer's value in the reader's version: of every object, the non-null vars whose ids and
  // types occur in both; the reader's other vars have their initial values.
  ghost function View(R: Classes, W: Classes, v: Value): (r: Value)
    ensures v.Atom? ==> r == v
    ensures v == Null ==> r == Null
    decreases v, 1
  {
    match v
    case Null => Null
    case Atom(_, _) => v
    case Object(cls, vars) =>
      if cls in R && cls in W && |vars| == |W[cls]|
      then Object(cls, seq(|R[cls]|, k requires 0 <= k < |R[cls]| => ViewVar(R, W, v, R[cls][k], R[cls][k].initial)))
      else Null
    case Pairs(pairs) =>
      Pairs(seq(|pairs|, i requires 0 <= i < |pairs| => (View(R, W, pairs[i].0), View(R, W, pairs[i].1))))
    case Items(items) => Items(seq(|items|, i requires 0 <= i < |items| => View(R, W, items[i])))
  }

  // A var of the reader, which holds old if the writer wrote nothing for it.
  ghost function ViewVar(R: Classes, W: Classes, v: Value, field: Field, old_: Value): Value
    requires v.Object? && v.cls in W && |v.vars| == |W[v.cls]|
    decreases v, 0
  {
    var j := FieldIndex(W[v.cls], field.fid);
    if j < |v.vars| && v.vars[j] != Null && Tag(W[v.cls][j].typ) == Tag(field.typ) then View(R, W, v.vars[j]) else old_
  }

  // The reader's vars after the writer's first n fields.
  ghost function Merged(R: Classes, W: Classes, v: Value, into: seq<Value>, n: nat): (vars: seq<Value>)
    requires v.Object? && v.cls in R && v.cls in W && |v.vars| == |W[v.cls]| && |into| == |R[v.cls]| && n <= |v.vars|
    ensures |vars| == |into|
  {
    seq(|into|, k requires 0 <= k < |into| =>
      if FieldIndex(W[v.cls], R[v.cls][k].fid) < n then ViewVar(R, W, v, R[v.cls][k], into[k]) else into[k])
  }

  lemma {:induction false} WriteListStep(C: Classes, elem: Type, set_: bool, v: Value, rest: seq<Token>)
    requires WellTyped(C, ListType(elem, set_), v)
    ensures Write(C, ListType(elem, set_), v) + rest
         == [if set_ then SetBegin(Tag(elem), |v.items|) else ListBegin(Tag(elem), |v.items|)]
          + (WriteItems(C, elem, v, 0) + ([if set_ then SetEnd else ListEnd] + rest))
  {
  }

  lemma {:induction false} WritePairsStep(C: Classes, key: Type, val: Type, v: Value, i: nat, rest: seq<Token>)
    requires v.Pairs? && WellTyped(C, Map(key, val), v) && i < |v.pairs|
    ensures WritePairs(C, key, val, v, i) + rest
         == Write(C, key, v.pairs[i].0) + (Write(C, val, v.pairs[i].1) + (WritePairs(C, key, val, v, i + 1) + rest))
  {
  }

  lemma {:induction false} WriteMapStep(C: Classes, key: Type, val: Type, v: Value, rest: seq<Token>)
    requires WellTyped(C, Map(key, val), v)
    ensures Write(C, Map(key, val), v) + rest
            == [MapBegin(Tag(key), Tag(val), |v.pairs|)] + (WritePairs(C, key, val, v, 0) + rest)
  {
  }

  lemma {:induction false} WriteVarsStep(C: Classes, v: Value, i: nat, rest: seq<Token>)
    requires v.Object? && WellTyped(C, Struct(v.cls), v) && i < |v.vars| && v.vars[i] != Null
    ensures WriteVars(C, v, i) + rest
         == [FieldBegin(Tag(C[v.cls][i].typ), C[v.cls][i].fid)]
          + (Write(C, C[v.cls][i].typ, v.vars[i]) + ([FieldEnd] + (WriteVars(C, v, i + 1) + rest)))
  {
  }

  // ---------------------------------------------------------------------------
  // Skipping
  // ---------------------------------------------------------------------------

  // Skipping a value by its wire type consumes exactly its tokens.
  lemma {:induction false} SkipsWritten(C: Classes, t: Type, v: Value, rest: seq<Token>)
    requires WellTyped(C, t, v)
    ensures Skip(Tag(t), Write(C, t, v) + rest) == Done((), rest)
    decreases v, 2, 0
  {
    match t
    case Scalar(_) => assert (Write(C, t, v) + rest)[1..] == rest;
    case Struct(_) =>
      assert (Write(C, t, v) + rest)[1..] == WriteVars(C, v, 0) + rest;
      SkipsVars(C, v, 0, rest);
    case Map(key, val) =>
      WriteMapStep(C, key, val, v, rest);
      SkipsPairs(C, key, val, v, 0, rest);
      MapSkipped(Tag(key), Tag(val), |v.pairs|, WritePairs(C, key, val, v, 0) + rest, rest);
    case List(elem) => SkipsList(C, elem, false, v, rest);
    case Set(elem) => SkipsList(C, elem, true, v, rest);
  }

  lemma {:induction false} SkipsList(C: Classes, elem: Type, set_: bool, v: Value, rest: seq<Token>)
    requires WellTyped(C, ListType(elem, set_), v)
    ensures Skip(if set_ then SET else LST, Write(C, ListType(elem, set_), v) + rest) == Done((), rest)
    decreases v, 1, 0
  {
    var end := if set_ then SetEnd else ListEnd;
    WriteListStep(C, elem, set_, v, rest);
    SkipsItems(C, elem, v, 0, [end] + rest);
    ListSkipped(Tag(elem), set_, |v.items|, WriteItems(C, elem, v, 0) + ([end] + rest), rest);
  }

  // A map, a list or a field is skipped once what is in it is.
  lemma {:induction false} MapSkipped(ktype: TType, vtype: TType, size: nat, body: seq<Token>, rest: seq<Token>)
    requires SkipPairs(ktype, vtype, size, body) == Done((), [MapEnd] + rest)
    ensures Skip(MAP, [MapBegin(ktype, vtype, size)] + body) == Done((), rest)
  {
    assert ([MapBegin(ktype, vtype, size)] + body)[1..] == body && ([MapEnd] + rest)[1..] == rest;
  }

  lemma {:induction false} ListSkipped(etype: TType, set_: bool, size: nat, body: seq<Token>, rest: seq<Token>)
    requires SkipItems(etype, size, body) == Done((), [if set_ then SetEnd else ListEnd] + rest)
    ensures Skip(if set_ then SET else LST, [if set_ then SetBegin(etype, size) else ListBegin(etype, size)] + body)
         == Done((), rest)
  {
    assert ([if set_ then SetBegin(etype, size) else ListBegin(etype, size)] + body)[1..] == body;
    assert ([if set_ then SetEnd else ListEnd] + rest)[1..] == rest;
  }

  lemma {:induction false} FieldSkipped(ftype: TType, fid: int, body: seq<Token>, rest: seq<Token>)
    requires Skip(ftype, body + ([FieldEnd] + rest)) == Done((), [FieldEnd] + rest)
    ensures SkipFields([FieldBegin(ftype, fid)] + (body + ([FieldEnd] + rest))) == SkipFields(rest)
  {
    assert ([FieldBegin(ftype, fid)] + (body + ([FieldEnd] + rest)))[1..] == body + ([FieldEnd] + rest);
    assert ([FieldEnd] + rest)[1..] == rest;
  }

  lemma {:induction false} SkipsVars(C: Classes, v: Value, i: nat, rest: seq<Token>)
    requires v.Object? && WellTyped(C, Struct(v.cls), v) && i <= |v.vars|
    ensures SkipFields(WriteVars(C, v, i) + rest) == Done((), rest)
    decreases v, 0, |v.vars| - i
  {
    if i == |v.vars| {
      assert ([FieldStop, StructEnd] + rest)[2..] == rest;
    } else {
      SkipsVars(C, v, i + 1, rest);
      if v.vars[i] != Null {
        var field, rest' := C[v.cls][i], WriteVars(C, v, i + 1) + rest;
        WriteVarsStep(C, v, i, rest);
        SkipsWritten(C, field.typ, v.vars[i], [FieldEnd] + rest');
        FieldSkipped(Tag(field.typ), field.fid, Write(C, field.typ, v.vars[i]), rest');
      }
    }
  }

  lemma {:induction false} SkipsPairs(C: Classes, key: Type, val: Type, v: Value, i: nat, rest: seq<Token>)
    requires v.Pairs? && WellTyped(C, Map(key, val), v) && i <= |v.pairs|
    ensures SkipPairs(Tag(key), Tag(val), |v.pairs| - i, WritePairs(C, key, val, v, i) + rest)
            == Done((), [MapEnd] + rest)
    decreases v, 0, |v.pairs| - i
  {
    if i < |v.pairs| {
      WritePairsStep(C, key, val, v, i, rest);
      SkipsPairs(C, key, val, v, i + 1, rest);
      SkipsPair(C, key, val, v, i, WritePairs(C, key, val, v, i + 1) + rest);
    }
  }

  lemma {:induction false} SkipsPair(C: Classes, key: Type, val: Type, v: Value, i: nat, rest: seq<Token>)
    requires v.Pairs? && WellTyped(C, Map(key, val), v) && i < |v.pairs|
    ensures SkipPairs(Tag(key), Tag(val), |v.pairs| - i,
                      Write(C, key, v.pairs[i].0) + (Write(C, val, v.pairs[i].1) + rest))
         == SkipPairs(Tag(key), Tag(val), |v.pairs| - i - 1, rest)
    decreases v, 0, 0
  {
    var ts := Write(C, val, v.pairs[i].1) + rest;
    SkipsWritten(C, key, v.pairs[i].0, ts);
    SkipsWritten(C, val, v.pairs[i].1, rest);
    SkipPairsStep(Tag(key), Tag(val), |v.pairs| - i - 1, Write(C, key, v.pairs[i].0) + ts, ts, rest);
  }

  lemma {:induction false} SkipPairsStep(ktype: TType, vtype: TType, n: nat, ts: seq<Token>, ts': seq<Token>,
                                         ts'': seq<Token>)
    requires Skip(ktype, ts) == Done((), ts') && Skip(vtype, ts') == Done((), ts'')
    ensures SkipPairs(ktype, vtype, n + 1, ts) == SkipPairs(ktype, vtype, n, ts'')
  {
  }

  lemma {:induction false} SkipsItems(C: Classes, elem: Type, v: Value, i: nat, rest: seq<Token>)
    requires v.Items? && WellTyped(C, List(elem), v) && i <= |v.items|
    ensures SkipItems(Tag(elem), |v.items| - i, WriteItems(C, elem, v, i) + rest) == Done((), rest)
    decreases v, 0, |v.items| - i
  {
    if i < |v.items| {
      var rest' := WriteItems(C, elem, v, i + 1) + rest;
      assert WriteItems(C, elem, v, i) + rest == Write(C, elem, v.items[i]) + rest';
      SkipsWritten(C, elem, v.items[i], rest');
      SkipsItems(C, elem, v, i + 1, rest);
    } else {
      assert WriteItems(C, elem, v, i) + rest == rest;
    }
  }

  // ---------------------------------------------------------------------------
  // Reading
  // ---------------------------------------------------------------------------

  // Reading consumes exactly what was written, and yields its view.
  lemma {:induction false} ReadsWritten(R: Classes, W: Classes, t: Type, v: Value, rest: seq<Token>)
    requires Compatible(R, W) && Known(R, t) && WellTyped(W, t, v)
    ensures ReadValue(R, t, Write(W, t, v) + rest) == Done(View(R, W, v), rest)
    decreases v, 2, 0
  {
    match t
    case Scalar(_) => assert (Write(W, t, v) + rest)[1..] == rest;
    case Struct(_) => ReadsStruct(R, W, v, rest);
    case Map(key, val) => ReadsMap(R, W, key, val, v, rest);
    case List(elem) => ReadsList(R, W, elem, false, v, rest);
    case Set(elem) => ReadsList(R, W, elem, true, v, rest);
  }

  lemma {:induction false} ReadsStruct(R: Classes, W: Classes, v: Value, rest: seq<Token>)
    requires v.Object? && v.cls in R && Compatible(R, W) && WellTyped(W, Struct(v.cls), v)
    ensures ReadValue(R, Struct(v.cls), Write(W, Struct(v.cls), v) + rest) == Done(View(R, W, v), rest)
    decreases v, 1, 0
  {
    var into := Initial(R[v.cls]);
    assert (Write(W, Struct(v.cls), v) + rest)[1..] == WriteVars(W, v, 0) + rest;
    assert Merged(R, W, v, into, 0) == into;
    ReadsVars(R, W, v, into, 0, rest);
    assert Merged(R, W, v, into, |v.vars|) == View(R, W, v).vars;
  }

  lemma {:induction false} ReadsMap(R: Classes, W: Classes, key: Type, val: Type, v: Value, rest: seq<Token>)
    requires Compatible(R, W) && Known(R, key) && Known(R, val) && WellTyped(W, Map(key, val), v)
    ensures ReadValue(R, Map(key, val), Write(W, Map(key, val), v) + rest) == Done(View(R, W, v), rest)
    decreases v, 1, 0
  {
    var body := WritePairs(W, key, val, v, 0) + rest;
    ReadsPairs(R, W, key, val, v, 0, rest);
    assert View(R, W, v).pairs[..0] == [];
    MapRead(R, key, val, |v.pairs|, View(R, W, v).pairs, body, rest);
    WriteMapStep(W, key, val, v, rest);
  }

  // A map is read once its pairs are.
  lemma {:induction false} MapRead(C: Classes, key: Type, val: Type, size: nat, pairs: seq<(Value, Value)>,
                                   body: seq<Token>,
                rest: seq<Token>)
    requires ReadPairs(C, key, val, size, [], body) == Done(pairs, [MapEnd] + rest)
    ensures ReadValue(C, Map(key, val), [MapBegin(Tag(key), Tag(val), size)] + body) == Done(Pairs(pairs), rest)
  {
    assert ([MapBegin(Tag(key), Tag(val), size)] + body)[1..] == body;
    assert ([MapEnd] + rest)[1..] == rest;
  }

  lemma {:induction false} ReadsList(R: Classes, W: Classes, elem: Type, set_: bool, v: Value, rest: seq<Token>)
    requires Compatible(R, W) && Known(R, elem) && WellTyped(W, ListType(elem, set_), v)
    ensures ReadValue(R, ListType(elem, set_), Write(W, ListType(elem, set_), v) + rest) == Done(View(R, W, v), rest)
    decreases v, 1, 0
  {
    var end := if set_ then SetEnd else ListEnd;
    WriteListStep(W, elem, set_, v, rest);
    ReadsItems(R, W, elem, set_, v, 0, [end] + rest);
    assert View(R, W, v).items[..0] == [];
    ListRead(R, elem, set_, |v.items|, View(R, W, v).items, WriteItems(W, elem, v, 0) + ([end] + rest), rest);
  }

  lemma {:induction false} ListRead(C: Classes, elem: Type, set_: bool, size: nat, items: seq<Value>, body: seq<Token>,
                                    rest: seq<Token>)
    requires ReadItems(C, elem, set_, size, [], body) == Done(items, [if set_ then SetEnd else ListEnd] + rest)
    ensures ReadValue(C, ListType(elem, set_),
                      [if set_ then SetBegin(Tag(elem), size) else ListBegin(Tag(elem), size)] + body)
         == Done(Items(items), rest)
  {
    assert ([if set_ then SetBegin(Tag(elem), size) else ListBegin(Tag(elem), size)] + body)[1..] == body;
    assert ([if set_ then SetEnd else ListEnd] + rest)[1..] == rest;
  }

  // The same into an object whose vars are into: what the writer did not write they keep.
  lemma {:induction false} ReadsVars(R: Classes, W: Classes, v: Value, into: seq<Value>, i: nat, rest: seq<Token>)
    requires v.Object? && v.cls in R && |into| == |R[v.cls]|
    requires Compatible(R, W) && WellTyped(W, Struct(v.cls), v) && i <= |v.vars|
    ensures ReadFields(R, R[v.cls], Merged(R, W, v, into, i), WriteVars(W, v, i) + rest)
            == Done(Merged(R, W, v, into, |v.vars|), rest)
    decreases v, 0, |v.vars| - i
  {
    if i == |v.vars| {
      assert ([FieldStop, StructEnd] + rest)[2..] == rest;
    } else {
      ReadsVars(R, W, v, into, i + 1, rest);
      if v.vars[i] == Null {
        MergedStep(R, W, v, into, i);
      } else {
        ReadsVar(R, W, v, into, i, [FieldEnd] + (WriteVars(W, v, i + 1) + rest));
        var field := W[v.cls][i];
        var body := Write(W, field.typ, v.vars[i]);
        FieldsStep(R, R[v.cls], Merged(R, W, v, into, i), field, body, WriteVars(W, v, i + 1) + rest);
        WriteVarsStep(W, v, i, rest);
      }
    }
  }

  // A field in front of others is read before them.
  lemma {:induction false} FieldsStep(C: Classes, fields: seq<Field>, vars: seq<Value>, field: Field, body: seq<Token>,
                                      rest: seq<Token>)
    requires |vars| == |fields|
    requires var r := ReadField(C, fields, vars, Tag(field.typ), field.fid, body + ([FieldEnd] + rest));
             r.Done? && r.rest == [FieldEnd] + rest
    ensures ReadFields(C, fields, vars, [FieldBegin(Tag(field.typ), field.fid)] + (body + ([FieldEnd] + rest)))
         == ReadFields(C, fields, ReadField(C, fields, vars, Tag(field.typ), field.fid,
                                            body + ([FieldEnd] + rest)).value, rest)
  {
    var ts := [FieldBegin(Tag(field.typ), field.fid)] + (body + ([FieldEnd] + rest));
    assert ts[1..] == body + ([FieldEnd] + rest);
    assert ([FieldEnd] + rest)[1..] == rest;
  }

  lemma {:induction false} ReadsVar(R: Classes, W: Classes, v: Value, into: seq<Value>, i: nat, rest: seq<Token>)
    requires v.Object? && v.cls in R && |into| == |R[v.cls]|
    requires Compatible(R, W) && WellTyped(W, Struct(v.cls), v) && i < |v.vars| && v.vars[i] != Null
    ensures ReadField(R, R[v.cls], Merged(R, W, v, into, i), Tag(W[v.cls][i].typ), W[v.cls][i].fid,
                      Write(W, W[v.cls][i].typ, v.vars[i]) + rest)
         == Done(Merged(R, W, v, into, i + 1), rest)
    decreases v, 0, 0
  {
    var field, fields := W[v.cls][i], R[v.cls];
    MergedStep(R, W, v, into, i);
    var k := FieldIndex(fields, field.fid);
    if k < |fields| && Tag(fields[k].typ) == Tag(field.typ) {
      assert FieldsCompatible(R[v.cls], W[v.cls]);
      ReadsWritten(R, W, field.typ, v.vars[i], rest);
    } else {
      SkipsWritten(W, field.typ, v.vars[i], rest);
    }
  }

  // The vars with one of them set: that of a field's id, if its type fits and the value is not null.
  ghost function Stored(fields: seq<Field>, vars: seq<Value>, field: Field, v: Value): seq<Value>
    requires |vars| == |fields|
  {
    var k := FieldIndex(fields, field.fid);
    if v != Null && k < |fields| && Tag(fields[k].typ) == Tag(field.typ) then vars[k := v] else vars
  }

  // One more field written changes one var: that of its id, if its type fits.
  lemma {:induction false} MergedStep(R: Classes, W: Classes, v: Value, into: seq<Value>, i: nat)
    requires v.Object? && v.cls in R && |into| == |R[v.cls]|
    requires Compatible(R, W) && WellTyped(W, Struct(v.cls), v) && i < |v.vars|
    ensures Merged(R, W, v, into, i + 1)
            == Stored(R[v.cls], Merged(R, W, v, into, i), W[v.cls][i], View(R, W, v.vars[i]))
  {
    var fields, gs := R[v.cls], W[v.cls];
    assert DistinctIds(fields) && DistinctIds(gs);
    forall k | 0 <= k < |fields|
      ensures FieldIndex(gs, fields[k].fid) == i <==> k == FieldIndex(fields, gs[i].fid)
    {
      if fields[k].fid == gs[i].fid {
        assert FieldIndex(gs, fields[k].fid) == i && FieldIndex(fields, gs[i].fid) == k;
      }
    }
  }

  lemma {:induction false} ReadsPairs(R: Classes, W: Classes, key: Type, val: Type, v: Value, i: nat, rest: seq<Token>)
    requires Compatible(R, W) && Known(R, key) && Known(R, val)
    requires v.Pairs? && WellTyped(W, Map(key, val), v) && i <= |v.pairs|
    ensures ReadPairs(R, key, val, |v.pairs| - i, View(R, W, v).pairs[..i], WritePairs(W, key, val, v, i) + rest)
         == Done(View(R, W, v).pairs, [MapEnd] + rest)
    decreases v, 0, |v.pairs| - i
  {
    var pairs := View(R, W, v).pairs;
    if i == |v.pairs| {
      assert pairs[..i] == pairs;
    } else {
      ViewKeys(R, W, v);
      ReadsPairs(R, W, key, val, v, i + 1, rest);
      WritePairsStep(W, key, val, v, i, rest);
      ReadsPair(R, W, key, val, v, i, WritePairs(W, key, val, v, i + 1) + rest);
    }
  }

  lemma {:induction false} ReadsPair(R: Classes, W: Classes, key: Type, val: Type, v: Value, i: nat, rest: seq<Token>)
    requires Compatible(R, W) && Known(R, key) && Known(R, val)
    requires v.Pairs? && WellTyped(W, Map(key, val), v) && i < |v.pairs| && DistinctKeys(View(R, W, v).pairs)
    ensures ReadPairs(R, key, val, |v.pairs| - i, View(R, W, v).pairs[..i],
                      Write(W, key, v.pairs[i].0) + (Write(W, val, v.pairs[i].1) + rest))
         == ReadPairs(R, key, val, |v.pairs| - i - 1, View(R, W, v).pairs[..i + 1], rest)
    decreases v, 0, 0
  {
    var ts := Write(W, val, v.pairs[i].1) + rest;
    ReadsWritten(R, W, key, v.pairs[i].0, ts);
    ReadsWritten(R, W, val, v.pairs[i].1, rest);
    PairsStep(R, key, val, |v.pairs| - i - 1, View(R, W, v).pairs, i, Write(W, key, v.pairs[i].0) + ts, ts, rest);
  }

  lemma {:induction false} ViewKeys(R: Classes, W: Classes, v: Value)
    requires v.Pairs? && DistinctKeys(v.pairs)
    ensures DistinctKeys(View(R, W, v).pairs)
  {
    assert forall i :: 0 <= i < |v.pairs| ==> View(R, W, v).pairs[i].0 == v.pairs[i].0;
  }

  // One pair more is read, and put behind those read before it.
  lemma {:induction false} PairsStep(C: Classes, key: Type, val: Type, n: nat, pairs: seq<(Value, Value)>, i: nat,
                  ts: seq<Token>, ts': seq<Token>, ts'': seq<Token>)
    requires i < |pairs| && DistinctKeys(pairs)
    requires ReadValue(C, key, ts) == Done(pairs[i].0, ts') && ReadValue(C, val, ts') == Done(pairs[i].1, ts'')
    ensures ReadPairs(C, key, val, n + 1, pairs[..i], ts) == ReadPairs(C, key, val, n, pairs[..i + 1], ts'')
  {
    PutNew(pairs[..i], pairs[i].0, pairs[i].1);
    assert pairs[..i + 1] == pairs[..i] + [pairs[i]];
  }

  lemma {:induction false} WriteItemsStep(C: Classes, elem: Type, v: Value, i: nat, rest: seq<Token>)
    requires v.Items? && WellTyped(C, List(elem), v) && i < |v.items|
    ensures WriteItems(C, elem, v, i) + rest == Write(C, elem, v.items[i]) + (WriteItems(C, elem, v, i + 1) + rest)
  {
  }

  lemma {:induction false} OneMoreItem(items: seq<Value>, i: nat)
    requires i < |items|
    ensures items[..i + 1] == items[..i] + [items[i]]
  {
  }

  lemma {:induction false} ReadsItems(R: Classes, W: Classes, elem: Type, set_: bool, v: Value, i: nat,
                                      rest: seq<Token>)
    requires Compatible(R, W) && Known(R, elem)
    requires v.Items? && WellTyped(W, List(elem), v) && (set_ ==> DistinctItems(v.items)) && i <= |v.items|
    ensures var items := View(R, W, v).items;
            ReadItems(R, elem, set_, |v.items| - i, items[..i], WriteItems(W, elem, v, i) + rest) == Done(items, rest)
    decreases v, 0, |v.items| - i
  {
    var items := View(R, W, v).items;
    if i < |v.items| {
      var rest' := WriteItems(W, elem, v, i + 1) + rest;
      WriteItemsStep(W, elem, v, i, rest);
      ReadsWritten(R, W, elem, v.items[i], rest');
      OneMoreItem(items, i);
      assert set_ ==> items[i] !in items[..i];
      ReadsItems(R, W, elem, set_, v, i + 1, rest);
    } else {
      assert items[..i] == items;
      assert WriteItems(W, elem, v, i) + rest == rest;
    }
  }

  // ---------------------------------------------------------------------------
  // One version
  // ---------------------------------------------------------------------------

  // Wherever an object's var is null, so is its initial value.
  ghost predicate NullsInitial(C: Classes, v: Value)
    decreases v
  {
    match v
    case Null => true
    case Atom(_, _) => true
    case Object(cls, vars) =>
      && cls in C && |vars| == |C[cls]|
      && forall i :: 0 <= i < |vars| ==> if vars[i] == Null then C[cls][i].initial == Null else NullsInitial(C, vars[i])
    case Pairs(pairs) => forall i :: 0 <= i < |pairs| ==> NullsInitial(C, pairs[i].0) && NullsInitial(C, pairs[i].1)
    case Items(items) => forall i :: 0 <= i < |items| ==> NullsInitial(C, items[i])
  }

  lemma {:induction false} ViewOfOwn(C: Classes, t: Type, v: Value)
    requires WellFormed(C) && WellTyped(C, t, v)
    ensures View(C, C, v) == v <==> NullsInitial(C, v)
    decreases v
  {
    match t
    case Scalar(_) =>
    case Struct(cls) =>
      assert DistinctIds(C[cls]);
      forall i | 0 <= i < |v.vars|
        ensures View(C, C, v).vars[i] == v.vars[i] <==>
                if v.vars[i] == Null then C[cls][i].initial == Null else NullsInitial(C, v.vars[i])
      {
        assert FieldIndex(C[cls], C[cls][i].fid) == i;
        if v.vars[i] != Null {
          ViewOfOwn(C, C[cls][i].typ, v.vars[i]);
        }
      }
    case Map(key, val) =>
      forall i | 0 <= i < |v.pairs|
        ensures View(C, C, v).pairs[i] == v.pairs[i] <==> NullsInitial(C, v.pairs[i].0) && NullsInitial(C, v.pairs[i].1)
      {
        ViewOfOwn(C, key, v.pairs[i].0);
        ViewOfOwn(C, val, v.pairs[i].1);
      }
    case List(elem) =>
      ItemsOfOwn(C, elem, v);
    case Set(elem) =>
      ItemsOfOwn(C, elem, v);
  }

  lemma {:induction false} ItemsOfOwn(C: Classes, elem: Type, v: Value)
    requires WellFormed(C) && v.Items? && WellTyped(C, List(elem), v)
    ensures View(C, C, v) == v <==> NullsInitial(C, v)
    decreases v, 0
  {
    forall i | 0 <= i < |v.items|
      ensures View(C, C, v).items[i] == v.items[i] <==> NullsInitial(C, v.items[i])
    {
      ViewOfOwn(C, elem, v.items[i]);
    }
  }

  // A value survives writing and reading exactly when no null var has another initial value.
  lemma {:induction false} RoundTrip(C: Classes, t: Type, v: Value, rest: seq<Token>)
    requires WellFormed(C) && Known(C, t) && WellTyped(C, t, v)
    ensures ReadValue(C, t, Write(C, t, v) + rest) == Done(v, rest) <==> NullsInitial(C, v)
  {
    forall cls | cls in C
      ensures FieldsCompatible(C[cls], C[cls])
    {
      assert DistinctIds(C[cls]);
    }
    ReadsWritten(C, C, t, v, rest);
    ViewOfOwn(C, t, v);
  }

  // ---------------------------------------------------------------------------
  // End to end
  // ---------------------------------------------------------------------------

  // A struct is written by one version and read by another into an object that exists; what
  // follows on the transport is left for the next read.
  method Transfer(R: Classes, W: Classes, v: Value, vars: array<Value>, after: seq<Token>)
    returns (ok: bool, rest: seq<Token>)
    requires v.Object? && v.cls in R && vars.Length == |R[v.cls]|
    requires Compatible(R, W) && WellTyped(W, Struct(v.cls), v)
    modifies vars
    ensures ok && rest == after
    ensures vars[..] == Merged(R, W, v, old(vars[..]), |v.vars|)
  {
    var output := new Output();
    WriteStruct(W, v, output);
    var input := new Input(output.sent + after);
    assert input.rest[1..] == WriteVars(W, v, 0) + after;
    assert Merged(R, W, v, vars[..], 0) == vars[..];
    ReadsVars(R, W, v, vars[..], 0, after);
    ok := input.Expect(StructBegin);
    ok := ReadStruct(R, R[v.cls], vars, input);
    rest := input.rest;
  }
}
