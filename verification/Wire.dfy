// What Thrift's spec-driven structs look like on a protocol (dataChange/thrift/src/Thrift.php), and
// what reading under one version of the specs makes of what was written under another.
module Wire {
  // The types of TBase::$tmethod, and TType.
  datatype Kind = BOOL | BYTE | I16 | I32 | I64 | DOUBLE | STRING
  datatype TType = Of(kind: Kind) | STRUCT | MAP | SET | LST

  datatype Type =
    | Scalar(kind: Kind)
    | Struct(cls: string)
    | Map(key: Type, val: Type)
    | List(elem: Type)
    | Set(elem: Type)

  // The vars of an object stand in the order of its class's fields. An array with keys is a
  // sequence of pairs in insertion order; a set is the sequence of its keys.
  datatype Value =
    | Null
    | Atom(kind: Kind, payload: string)
    | Object(cls: string, vars: seq<Value>)
    | Pairs(pairs: seq<(Value, Value)>)
    | Items(items: seq<Value>)

  // One entry of a class's $_TSPEC, with the value its constructor gives the var.
  datatype Field = Field(fid: int, typ: Type, initial: Value)

  type Classes = map<string, seq<Field>>

  // The calls on a protocol.
  datatype Token =
    | StructBegin | StructEnd
    | FieldBegin(ftype: TType, fid: int) | FieldEnd | FieldStop
    | MapBegin(ktype: TType, vtype: TType, size: nat) | MapEnd
    | ListBegin(etype: TType, size: nat) | ListEnd
    | SetBegin(etype: TType, size: nat) | SetEnd
    | Datum(kind: Kind, payload: string)

  datatype Result<T> = Done(value: T, rest: seq<Token>) | Failed

  function Tag(t: Type): TType {
    match t
    case Scalar(kind) => Of(kind)
    case Struct(_) => STRUCT
    case Map(_, _) => MAP
    case List(_) => LST
    case Set(_) => SET
  }

  // The two types that _writeList and _readList are for.
  function ListType(elem: Type, set_: bool): Type {
    if set_ then Set(elem) else List(elem)
  }

  function FieldIndex(fields: seq<Field>, fid: int): (i: nat)
    ensures i <= |fields|
    ensures i < |fields| ==> fields[i].fid == fid
    ensures forall k :: 0 <= k < i ==> fields[k].fid != fid
  {
    if fields == [] || fields[0].fid == fid then 0 else 1 + FieldIndex(fields[1..], fid)
  }

  function Initial(fields: seq<Field>): seq<Value> {
    seq(|fields|, i requires 0 <= i < |fields| => fields[i].initial)
  }

  ghost predicate DistinctIds(fields: seq<Field>) {
    forall i, j :: 0 <= i < j < |fields| ==> fields[i].fid != fields[j].fid
  }

  ghost predicate UniqueIds(C: Classes) {
    forall cls :: cls in C ==> DistinctIds(C[cls])
  }

  // ---------------------------------------------------------------------------
  // Writing
  // ---------------------------------------------------------------------------

  // Array keys are scalars, each at most once.
  ghost predicate DistinctKeys(pairs: seq<(Value, Value)>) {
    && (forall i :: 0 <= i < |pairs| ==> pairs[i].0.Atom?)
    && (forall i, j :: 0 <= i < j < |pairs| ==> pairs[i].0 != pairs[j].0)
  }

  ghost predicate DistinctItems(items: seq<Value>) {
    && (forall i :: 0 <= i < |items| ==> items[i].Atom?)
    && (forall i, j :: 0 <= i < j < |items| ==> items[i] != items[j])
  }

  ghost predicate WellTyped(C: Classes, t: Type, v: Value)
    decreases v
  {
    match t
    case Scalar(kind) => v.Atom? && v.kind == kind
    case Struct(cls) =>
      && v.Object? && v.cls == cls && cls in C && |v.vars| == |C[cls]|
      && forall i :: 0 <= i < |v.vars| ==> v.vars[i] == Null || WellTyped(C, C[cls][i].typ, v.vars[i])
    case Map(key, val) =>
      && v.Pairs? && DistinctKeys(v.pairs)
      && forall i :: 0 <= i < |v.pairs| ==> WellTyped(C, key, v.pairs[i].0) && WellTyped(C, val, v.pairs[i].1)
    case List(elem) => v.Items? && forall i :: 0 <= i < |v.items| ==> WellTyped(C, elem, v.items[i])
    case Set(elem) =>
      && v.Items? && DistinctItems(v.items)
      && forall i :: 0 <= i < |v.items| ==> WellTyped(C, elem, v.items[i])
  }

  ghost function Write(C: Classes, t: Type, v: Value): seq<Token>
    requires WellTyped(C, t, v)
    decreases v, 1, 0
  {
    match t
    case Scalar(kind) => [Datum(kind, v.payload)]
    case Struct(_) => [StructBegin] + WriteVars(C, v, 0)
    case Map(key, val) => [MapBegin(Tag(key), Tag(val), |v.pairs|)] + WritePairs(C, key, val, v, 0)
    case List(elem) => [ListBegin(Tag(elem), |v.items|)] + WriteItems(C, elem, v, 0) + [ListEnd]
    case Set(elem) => [SetBegin(Tag(elem), |v.items|)] + WriteItems(C, elem, v, 0) + [SetEnd]
  }

  // The vars of an object from index i on; null ones are not written.
  ghost function WriteVars(C: Classes, v: Value, i: nat): seq<Token>
    requires v.Object? && WellTyped(C, Struct(v.cls), v) && i <= |v.vars|
    decreases v, 0, |v.vars| - i
  {
    if i == |v.vars| then [FieldStop, StructEnd]
    else if v.vars[i] == Null then WriteVars(C, v, i + 1)
    else
      var field := C[v.cls][i];
      [FieldBegin(Tag(field.typ), field.fid)] + Write(C, field.typ, v.vars[i]) + [FieldEnd] + WriteVars(C, v, i + 1)
  }

  ghost function WritePairs(C: Classes, key: Type, val: Type, v: Value, i: nat): seq<Token>
    requires v.Pairs? && WellTyped(C, Map(key, val), v) && i <= |v.pairs|
    decreases v, 0, |v.pairs| - i
  {
    if i == |v.pairs| then [MapEnd]
    else Write(C, key, v.pairs[i].0) + Write(C, val, v.pairs[i].1) + WritePairs(C, key, val, v, i + 1)
  }

  ghost function WriteItems(C: Classes, elem: Type, v: Value, i: nat): seq<Token>
    requires v.Items? && WellTyped(C, List(elem), v) && i <= |v.items|
    decreases v, 0, |v.items| - i
  {
    if i == |v.items| then [] else Write(C, elem, v.items[i]) + WriteItems(C, elem, v, i + 1)
  }

  // ---------------------------------------------------------------------------
  // Reading
  // ---------------------------------------------------------------------------

  // $var[$key] = $val: a key that is there keeps its place.
  function Put(pairs: seq<(Value, Value)>, key: Value, val: Value): seq<(Value, Value)> {
    if pairs == [] then [(key, val)]
    else if pairs[0].0 == key then [(key, val)] + pairs[1..]
    else [pairs[0]] + Put(pairs[1..], key, val)
  }

  lemma {:induction false} PutNew(pairs: seq<(Value, Value)>, key: Value, val: Value)
    requires forall i :: 0 <= i < |pairs| ==> pairs[i].0 != key
    ensures Put(pairs, key, val) == pairs + [(key, val)]
  {
    if pairs != [] {
      PutNew(pairs[1..], key, val);
    }
  }

  // $var[$elem] = true
  function PutItem(items: seq<Value>, elem: Value): seq<Value> {
    if elem in items then items else items + [elem]
  }

  function ReadValue(C: Classes, t: Type, ts: seq<Token>): (r: Result<Value>)
    ensures r.Done? ==> |r.rest| < |ts|
    decreases |ts|, 0
  {
    if ts == [] then Failed else
      match (t, ts[0])
      case (Scalar(kind), Datum(k, payload)) => if k == kind then Done(Atom(kind, payload), ts[1..]) else Failed
      case (Struct(cls), StructBegin) =>
        if cls !in C then Failed else
          (match ReadFields(C, C[cls], Initial(C[cls]), ts[1..])
           case Done(vars, rest) => Done(Object(cls, vars), rest)
           case Failed => Failed)
      case (Map(key, val), MapBegin(_, _, size)) =>
        (match ReadPairs(C, key, val, size, [], ts[1..])
         case Done(pairs, rest) => if rest != [] && rest[0] == MapEnd then Done(Pairs(pairs), rest[1..]) else Failed
         case Failed => Failed)
      case (List(elem), ListBegin(_, size)) =>
        (match ReadItems(C, elem, false, size, [], ts[1..])
         case Done(items, rest) => if rest != [] && rest[0] == ListEnd then Done(Items(items), rest[1..]) else Failed
         case Failed => Failed)
      case (Set(elem), SetBegin(_, size)) =>
        (match ReadItems(C, elem, true, size, [], ts[1..])
         case Done(items, rest) => if rest != [] && rest[0] == SetEnd then Done(Items(items), rest[1..]) else Failed
         case Failed => Failed)
      case _ => Failed
  }

  // The loop of _read, with the vars as they are so far: a field of an unknown id, or of another
  // type than the one expected, is skipped.
  function ReadFields(C: Classes, fields: seq<Field>, vars: seq<Value>, ts: seq<Token>): (r: Result<seq<Value>>)
    requires |vars| == |fields|
    ensures r.Done? ==> |r.rest| < |ts| && |r.value| == |vars|
    decreases |ts|, 0
  {
    if |ts| < 2 then Failed
    else if ts[0].FieldStop? then (if ts[1].StructEnd? then Done(vars, ts[2..]) else Failed)
    else if !ts[0].FieldBegin? then Failed
    else
      match ReadField(C, fields, vars, ts[0].ftype, ts[0].fid, ts[1..])
      case Done(vars', rest) =>
        if rest != [] && rest[0].FieldEnd? then ReadFields(C, fields, vars', rest[1..]) else Failed
      case Failed => Failed
  }

  function ReadField(C: Classes, fields: seq<Field>, vars: seq<Value>, ftype: TType, fid: int, ts: seq<Token>)
    : (r: Result<seq<Value>>)
    requires |vars| == |fields|
    ensures r.Done? ==> |r.rest| < |ts| && |r.value| == |vars|
    decreases |ts|, 1
  {
    var i := FieldIndex(fields, fid);
    if i < |fields| && ftype == Tag(fields[i].typ) then
      match ReadValue(C, fields[i].typ, ts)
      case Done(v, rest) => Done(vars[i := v], rest)
      case Failed => Failed
    else
      match Skip(ftype, ts)
      case Done(_, rest) => Done(vars, rest)
      case Failed => Failed
  }

  function ReadPairs(C: Classes, key: Type, val: Type, n: nat, acc: seq<(Value, Value)>, ts: seq<Token>)
    : (r: Result<seq<(Value, Value)>>)
    ensures r.Done? ==> |r.rest| <= |ts|
    decreases |ts|, 1
  {
    if n == 0 then Done(acc, ts) else
      match ReadValue(C, key, ts)
      case Failed => Failed
      case Done(k, rest) =>
        match ReadValue(C, val, rest)
        case Failed => Failed
        case Done(v, rest') => if k.Atom? then ReadPairs(C, key, val, n - 1, Put(acc, k, v), rest') else Failed
  }

  function ReadItems(C: Classes, elem: Type, set_: bool, n: nat, acc: seq<Value>, ts: seq<Token>)
    : (r: Result<seq<Value>>)
    ensures r.Done? ==> |r.rest| <= |ts|
    decreases |ts|, 1
  {
    if n == 0 then Done(acc, ts) else
      match ReadValue(C, elem, ts)
      case Failed => Failed
      case Done(v, rest) =>
        if set_ && !v.Atom? then Failed
        else ReadItems(C, elem, set_, n - 1, if set_ then PutItem(acc, v) else acc + [v], rest)
  }

  // ---------------------------------------------------------------------------
  // What the arrays hold that are read
  // ---------------------------------------------------------------------------

  // The pairs as they come.
  function PairsSent(C: Classes, key: Type, val: Type, n: nat, ts: seq<Token>): (r: Result<seq<(Value, Value)>>)
    ensures r.Done? ==> |r.rest| <= |ts| && |r.value| == n
    decreases n
  {
    if n == 0 then Done([], ts) else
      match ReadValue(C, key, ts)
      case Failed => Failed
      case Done(k, rest) =>
        match ReadValue(C, val, rest)
        case Failed => Failed
        case Done(v, rest') =>
          match PairsSent(C, key, val, n - 1, rest')
          case Failed => Failed
          case Done(pairs, rest'') => Done([(k, v)] + pairs, rest'')
  }

  // Key and value are together in an array.
  ghost predicate Holds(pairs: seq<(Value, Value)>, key: Value, val: Value) { (key, val) in pairs }

  // The last value that is sent with a key.
  ghost predicate LastSent(sent: seq<(Value, Value)>, key: Value, val: Value) {
    exists i :: 0 <= i < |sent| && sent[i] == (key, val) && forall j :: i < j < |sent| ==> sent[j].0 != key
  }

  ghost predicate KeyThere(pairs: seq<(Value, Value)>, key: Value) {
    exists i :: 0 <= i < |pairs| && pairs[i].0 == key
  }

  // The new value replaces that of its key, and the others stay.
  lemma {:induction false} PutHolds(pairs: seq<(Value, Value)>, key: Value, val: Value)
    requires DistinctKeys(pairs) && key.Atom?
    ensures DistinctKeys(Put(pairs, key, val))
    ensures forall k, v :: Holds(Put(pairs, key, val), k, v) <==> if k == key then v == val else Holds(pairs, k, v)
  {
    if pairs != [] {
      var first, rest := pairs[0], pairs[1..];
      PutHolds(rest, key, val);
      forall k, v
        ensures Holds(Put(pairs, key, val), k, v) <==> if k == key then v == val else Holds(pairs, k, v)
      {
        HoldsCons(first, rest, k, v);
        HoldsCons(first, Put(rest, key, val), k, v);
        HoldsCons((key, val), rest, k, v);
        assert pairs == [first] + rest;
        if first.0 == key && Holds(rest, k, v) {
          var i :| 0 <= i < |rest| && rest[i] == (k, v);
          assert pairs[i + 1] == (k, v);
        }
      }
      if first.0 != key {
        PutKeys(rest, key, val);
        PutDistinct(first, rest, Put(rest, key, val), key);
      }
    }
  }

  lemma {:induction false} HoldsCons(first: (Value, Value), rest: seq<(Value, Value)>, k: Value, v: Value)
    ensures Holds([first] + rest, k, v) <==> first == (k, v) || Holds(rest, k, v)
  {
  }

  lemma {:induction false} PutDistinct(first: (Value, Value), rest: seq<(Value, Value)>, rest': seq<(Value, Value)>,
                                       key: Value)
    requires DistinctKeys([first] + rest) && DistinctKeys(rest') && first.0 != key
    requires forall i :: 0 <= i < |rest'| ==> rest'[i].0 == key || KeyThere(rest, rest'[i].0)
    ensures DistinctKeys([first] + rest')
  {
    forall i | 0 <= i < |rest'|
      ensures rest'[i].0 != first.0
    {
      if KeyThere(rest, rest'[i].0) {
        var j :| 0 <= j < |rest| && rest[j].0 == rest'[i].0;
        assert ([first] + rest)[0] == first && ([first] + rest)[j + 1] == rest[j];
      }
    }
    assert ([first] + rest)[0] == first;
  }

  lemma {:induction false} PutKeys(pairs: seq<(Value, Value)>, key: Value, val: Value)
    ensures forall i :: 0 <= i < |Put(pairs, key, val)| ==>
              Put(pairs, key, val)[i].0 == key || KeyThere(pairs, Put(pairs, key, val)[i].0)
  {
    if pairs != [] && pairs[0].0 != key {
      PutKeys(pairs[1..], key, val);
    }
  }

  // Whatever was there before, each key that is sent has the last value sent with it, and the others
  // keep theirs.
  lemma {:induction false} LastSentHolds(C: Classes, key: Type, val: Type, n: nat, acc: seq<(Value, Value)>,
                                         ts: seq<Token>)
    requires ReadPairs(C, key, val, n, acc, ts).Done? && DistinctKeys(acc)
    ensures var r, sent := ReadPairs(C, key, val, n, acc, ts), PairsSent(C, key, val, n, ts);
            && sent.Done? && sent.rest == r.rest && DistinctKeys(r.value)
            && forall k, v :: Holds(r.value, k, v) <==>
                              LastSent(sent.value, k, v) || (!KeyThere(sent.value, k) && Holds(acc, k, v))
    decreases n
  {
    if n > 0 {
      var k0 := ReadValue(C, key, ts);
      var v0 := ReadValue(C, val, k0.rest);
      PutHolds(acc, k0.value, v0.value);
      LastSentHolds(C, key, val, n - 1, Put(acc, k0.value, v0.value), v0.rest);
      var more := PairsSent(C, key, val, n - 1, v0.rest).value;
      LastSentCons((k0.value, v0.value), more);
    }
  }

  lemma {:induction false} LastSentCons(pair: (Value, Value), more: seq<(Value, Value)>)
    ensures forall k :: KeyThere([pair] + more, k) <==> k == pair.0 || KeyThere(more, k)
    ensures forall k, v :: LastSent([pair] + more, k, v) <==>
                           LastSent(more, k, v) || (!KeyThere(more, k) && pair == (k, v))
  {
    var sent := [pair] + more;
    assert forall i :: 0 <= i < |more| ==> sent[i + 1] == more[i];
    forall k
      ensures KeyThere(sent, k) <==> k == pair.0 || KeyThere(more, k)
    {
      if i :| 0 <= i < |more| && more[i].0 == k {
        assert sent[i + 1].0 == k;
      }
      assert sent[0].0 == pair.0;
    }
    forall k, v
      ensures LastSent(sent, k, v) <==> LastSent(more, k, v) || (!KeyThere(more, k) && pair == (k, v))
    {
      LastSentOne(pair, more, k, v);
    }
  }

  lemma {:induction false} LastSentOne(pair: (Value, Value), more: seq<(Value, Value)>, k: Value, v: Value)
    ensures LastSent([pair] + more, k, v) <==> LastSent(more, k, v) || (!KeyThere(more, k) && pair == (k, v))
  {
    if LastSent(more, k, v) {
      StaysLast(pair, more, k, v);
    }
    var sent := [pair] + more;
    assert forall i :: 0 <= i < |more| ==> sent[i + 1] == more[i];
    if !KeyThere(more, k) && pair == (k, v) {
      assert sent[0] == (k, v) && forall j :: 0 < j < |sent| ==> sent[j] == more[j - 1];
    }
    if LastSent(sent, k, v) {
      WasLast(pair, more, k, v);
    }
  }

  lemma {:induction false} StaysLast(pair: (Value, Value), more: seq<(Value, Value)>, k: Value, v: Value)
    requires LastSent(more, k, v)
    ensures LastSent([pair] + more, k, v)
  {
    var sent := [pair] + more;
    var i :| 0 <= i < |more| && more[i] == (k, v) && forall j :: i < j < |more| ==> more[j].0 != k;
    assert sent[i + 1] == (k, v);
    assert forall j :: i + 1 < j < |sent| ==> sent[j] == more[j - 1];
  }

  lemma {:induction false} WasLast(pair: (Value, Value), more: seq<(Value, Value)>, k: Value, v: Value)
    requires LastSent([pair] + more, k, v)
    ensures LastSent(more, k, v) || (!KeyThere(more, k) && pair == (k, v))
  {
    var sent := [pair] + more;
    var i :| 0 <= i < |sent| && sent[i] == (k, v) && forall j :: i < j < |sent| ==> sent[j].0 != k;
    assert forall j :: 0 <= j < |more| ==> more[j] == sent[j + 1];
    if i > 0 {
      assert more[i - 1] == (k, v);
    }
  }

  // A map that is read holds the last value sent with each key.
  lemma {:induction false} MapHoldsLast(C: Classes, key: Type, val: Type, n: nat, ts: seq<Token>)
    requires ReadPairs(C, key, val, n, [], ts).Done?
    ensures var r, sent := ReadPairs(C, key, val, n, [], ts), PairsSent(C, key, val, n, ts);
            && sent.Done? && sent.rest == r.rest && DistinctKeys(r.value)
            && forall k, v :: (k, v) in r.value <==> LastSent(sent.value, k, v)
  {
    LastSentHolds(C, key, val, n, [], ts);
    var r, sent := ReadPairs(C, key, val, n, [], ts), PairsSent(C, key, val, n, ts);
    forall k, v
      ensures (k, v) in r.value <==> LastSent(sent.value, k, v)
    {
      assert Holds(r.value, k, v) <==> (k, v) in r.value;
    }
  }

  // A set that is read has the elements sent, each once.
  lemma {:induction false} SetHoldsAll(C: Classes, elem: Type, n: nat, acc: seq<Value>, sent: seq<Value>,
                                       ts: seq<Token>)
    requires ReadItems(C, elem, true, n, acc, ts).Done? && DistinctItems(acc) && forall x :: x in acc <==> x in sent
    ensures var r, all := ReadItems(C, elem, true, n, acc, ts), ReadItems(C, elem, false, n, sent, ts);
            && all.Done? && all.rest == r.rest && DistinctItems(r.value)
            && forall x :: x in r.value <==> x in all.value
    decreases n
  {
    if n > 0 {
      var x := ReadValue(C, elem, ts);
      SetHoldsAll(C, elem, n - 1, PutItem(acc, x.value), sent + [x.value], x.rest);
    }
  }

  // ---------------------------------------------------------------------------
  // Skipping
  // ---------------------------------------------------------------------------

  // TProtocol::skip
  function Skip(tag: TType, ts: seq<Token>): (r: Result<()>)
    ensures r.Done? ==> |r.rest| < |ts|
    decreases |ts|, 0
  {
    if ts == [] then Failed else
      match (tag, ts[0])
      case (Of(kind), Datum(k, _)) => if k == kind then Done((), ts[1..]) else Failed
      case (STRUCT, StructBegin) => SkipFields(ts[1..])
      case (MAP, MapBegin(ktype, vtype, size)) => Closed(SkipPairs(ktype, vtype, size, ts[1..]), MapEnd)
      case (LST, ListBegin(etype, size)) => Closed(SkipItems(etype, size, ts[1..]), ListEnd)
      case (SET, SetBegin(etype, size)) => Closed(SkipItems(etype, size, ts[1..]), SetEnd)
      case _ => Failed
  }

  function Closed(r: Result<()>, end: Token): (r': Result<()>)
    ensures r'.Done? ==> r.Done? && |r'.rest| < |r.rest|
  {
    if r.Done? && r.rest != [] && r.rest[0] == end then Done((), r.rest[1..]) else Failed
  }

  function SkipFields(ts: seq<Token>): (r: Result<()>)
    ensures r.Done? ==> |r.rest| < |ts|
    decreases |ts|, 0
  {
    if |ts| < 2 then Failed
    else if ts[0].FieldStop? then (if ts[1].StructEnd? then Done((), ts[2..]) else Failed)
    else if !ts[0].FieldBegin? then Failed
    else
      match Skip(ts[0].ftype, ts[1..])
      case Done(_, rest) => if rest != [] && rest[0].FieldEnd? then SkipFields(rest[1..]) else Failed
      case Failed => Failed
  }

  function SkipPairs(ktype: TType, vtype: TType, n: nat, ts: seq<Token>): (r: Result<()>)
    ensures r.Done? ==> |r.rest| <= |ts|
    decreases |ts|, 1
  {
    if n == 0 then Done((), ts) else
      match Skip(ktype, ts)
      case Failed => Failed
      case Done(_, rest) =>
        match Skip(vtype, rest)
        case Failed => Failed
        case Done(_, rest') => SkipPairs(ktype, vtype, n - 1, rest')
  }

  function SkipItems(etype: TType, n: nat, ts: seq<Token>): (r: Result<()>)
    ensures r.Done? ==> |r.rest| <= |ts|
    decreases |ts|, 1
  {
    if n == 0 then Done((), ts) else
      match Skip(etype, ts)
      case Done(_, rest) => SkipItems(etype, n - 1, rest)
      case Failed => Failed
  }
}
