// TBase's writers and readers (dataChange/thrift/src/Thrift.php) and the protocol's skip
// (dataChange/thrift/lib/Thrift/Protocol/TProtocol.php), on a protocol that keeps its calls.
module Serialization {
  import opened Wire

  class Output {
    var sent: seq<Token>

    constructor ()
      ensures sent == []
    {
      sent := [];
    }

    method Put(token: Token)
      modifies this
      ensures sent == old(sent) + [token]
    {
      sent := sent + [token];
    }
  }

  class Input {
    var rest: seq<Token>

    constructor (tokens: seq<Token>)
      ensures rest == tokens
    {
      rest := tokens;
    }

    // The next call's answer; none at the end of the transport.
    method Get() returns (ok: bool, token: Token)
      modifies this
      ensures ok == (old(rest) != [])
      ensures ok ==> token == old(rest)[0] && rest == old(rest)[1..]
      ensures !ok ==> rest == old(rest)
    {
      if rest == [] {
        return false, FieldStop;
      }
      ok, token, rest := true, rest[0], rest[1..];
    }

    // A call that has to find a particular token.
    method Expect(token: Token) returns (ok: bool)
      modifies this
      ensures ok == (old(rest) != [] && old(rest)[0] == token)
      ensures ok ==> rest == old(rest)[1..]
    {
      var found;
      ok, found := Get();
      ok := ok && found == token;
    }
  }

  // ---------------------------------------------------------------------------
  // Writing
  // ---------------------------------------------------------------------------

  method WriteValue(C: Classes, t: Type, v: Value, output: Output)
    requires WellTyped(C, t, v)
    modifies output
    ensures output.sent == old(output.sent) + Write(C, t, v)
    decreases v, 2
  {
    match t {
      case Scalar(kind) => output.Put(Datum(kind, v.payload));
      case Struct(_) => WriteStruct(C, v, output);
      case Map(key, val) => WriteMap(C, key, val, v, output);
      case List(elem) => WriteList(C, elem, v, false, output);
      case Set(elem) => WriteList(C, elem, v, true, output);
    }
  }

  // _write
  method WriteStruct(C: Classes, v: Value, output: Output)
    requires v.Object? && WellTyped(C, Struct(v.cls), v)
    modifies output
    ensures output.sent == old(output.sent) + Write(C, Struct(v.cls), v)
    decreases v, 1
  {
    output.Put(StructBegin);
    for i := 0 to |v.vars|
      invariant output.sent + WriteVars(C, v, i) == old(output.sent) + Write(C, Struct(v.cls), v)
    {
      if v.vars[i] != Null {
        var field := C[v.cls][i];
        output.Put(FieldBegin(Tag(field.typ), field.fid));
        WriteValue(C, field.typ, v.vars[i], output);
        output.Put(FieldEnd);
      }
    }
    output.Put(FieldStop);
    output.Put(StructEnd);
  }

  // _writeMap
  method WriteMap(C: Classes, key: Type, val: Type, v: Value, output: Output)
    requires WellTyped(C, Map(key, val), v)
    modifies output
    ensures output.sent == old(output.sent) + Write(C, Map(key, val), v)
    decreases v, 1
  {
    output.Put(MapBegin(Tag(key), Tag(val), |v.pairs|));
    WriteEntries(C, key, val, v, output);
  }

  // Its loop, and what follows it.
  method WriteEntries(C: Classes, key: Type, val: Type, v: Value, output: Output)
    requires WellTyped(C, Map(key, val), v)
    modifies output
    ensures output.sent == old(output.sent) + WritePairs(C, key, val, v, 0)
    decreases v, 0
  {
    ghost var all := old(output.sent) + WritePairs(C, key, val, v, 0);
    for i := 0 to |v.pairs|
      invariant output.sent + WritePairs(C, key, val, v, i) == all
    {
      PairWritten(C, key, val, v, i, output.sent);
      WriteValue(C, key, v.pairs[i].0, output);
      WriteValue(C, val, v.pairs[i].1, output);
    }
    output.Put(MapEnd);
  }

  lemma {:induction false} PairWritten(C: Classes, key: Type, val: Type, v: Value, i: nat, sent: seq<Token>)
    requires v.Pairs? && WellTyped(C, Map(key, val), v) && i < |v.pairs|
    ensures sent + Write(C, key, v.pairs[i].0) + Write(C, val, v.pairs[i].1) + WritePairs(C, key, val, v, i + 1)
         == sent + WritePairs(C, key, val, v, i)
  {
  }

  // _writeList
  method WriteList(C: Classes, elem: Type, v: Value, set_: bool, output: Output)
    requires WellTyped(C, ListType(elem, set_), v)
    modifies output
    ensures output.sent == old(output.sent) + Write(C, ListType(elem, set_), v)
    decreases v, 1
  {
    var begin := if set_ then SetBegin(Tag(elem), |v.items|) else ListBegin(Tag(elem), |v.items|);
    var end := if set_ then SetEnd else ListEnd;
    assert Write(C, ListType(elem, set_), v) == [begin] + WriteItems(C, elem, v, 0) + [end];
    output.Put(begin);
    WriteElements(C, elem, v, output);
    output.Put(end);
  }

  // Its loop.
  method WriteElements(C: Classes, elem: Type, v: Value, output: Output)
    requires WellTyped(C, List(elem), v)
    modifies output
    ensures output.sent == old(output.sent) + WriteItems(C, elem, v, 0)
    decreases v, 0
  {
    ghost var all := output.sent + WriteItems(C, elem, v, 0);
    for i := 0 to |v.items|
      invariant output.sent + WriteItems(C, elem, v, i) == all
    {
      ItemWritten(C, elem, v, i, output.sent);
      WriteValue(C, elem, v.items[i], output);
    }
  }

  lemma {:induction false} ItemWritten(C: Classes, elem: Type, v: Value, i: nat, sent: seq<Token>)
    requires v.Items? && WellTyped(C, List(elem), v) && i < |v.items|
    ensures sent + Write(C, elem, v.items[i]) + WriteItems(C, elem, v, i + 1) == sent + WriteItems(C, elem, v, i)
  {
  }

  // ---------------------------------------------------------------------------
  // Skipping
  // ---------------------------------------------------------------------------

  // A method has read what a function reads from the same tokens.
  ghost predicate Reads<T>(r: Result<T>, ok: bool, value: T, rest: seq<Token>) {
    if ok then r == Done(value, rest) else r == Failed
  }

  method SkipValue(tag: TType, input: Input) returns (ok: bool)
    modifies input
    ensures Reads(Skip(tag, old(input.rest)), ok, (), input.rest)
    decreases |input.rest|, 0
  {
    var token;
    ok, token := input.Get();
    if !ok {
      return;
    }
    match (tag, token) {
      case (Of(kind), Datum(k, _)) => ok := k == kind;
      case (STRUCT, StructBegin) => ok := SkipStruct(input);
      case (MAP, MapBegin(ktype, vtype, size)) => ok := SkipMap(ktype, vtype, size, input);
      case (LST, ListBegin(etype, size)) => ok := SkipList(etype, size, ListEnd, input);
      case (SET, SetBegin(etype, size)) => ok := SkipList(etype, size, SetEnd, input);
      case _ => ok := false;
    }
  }

  method SkipStruct(input: Input) returns (ok: bool)
    modifies input
    ensures Reads(SkipFields(old(input.rest)), ok, (), input.rest)
    decreases |input.rest|
  {
    while true
      invariant |input.rest| <= |old(input.rest)| && SkipFields(input.rest) == SkipFields(old(input.rest))
      decreases |input.rest|
    {
      var token;
      ok, token := input.Get();
      if !ok || token == FieldStop {
        break;
      }
      if !token.FieldBegin? {
        return false;
      }
      ok := SkipValue(token.ftype, input);
      if !ok {
        return;
      }
      ok := input.Expect(FieldEnd);
      if !ok {
        return;
      }
    }
    if ok {
      ok := input.Expect(StructEnd);
    }
  }

  method SkipMap(ktype: TType, vtype: TType, size: nat, input: Input) returns (ok: bool)
    modifies input
    ensures Reads(Closed(SkipPairs(ktype, vtype, size, old(input.rest)), MapEnd), ok, (), input.rest)
    decreases |input.rest|, 1
  {
    for i := 0 to size
      invariant |input.rest| <= |old(input.rest)|
      invariant SkipPairs(ktype, vtype, size - i, input.rest) == SkipPairs(ktype, vtype, size, old(input.rest))
    {
      ok := SkipValue(ktype, input);
      if !ok {
        return;
      }
      ok := SkipValue(vtype, input);
      if !ok {
        return;
      }
    }
    ok := input.Expect(MapEnd);
  }

  method SkipList(etype: TType, size: nat, end: Token, input: Input) returns (ok: bool)
    modifies input
    ensures Reads(Closed(SkipItems(etype, size, old(input.rest)), end), ok, (), input.rest)
    decreases |input.rest|, 1
  {
    for i := 0 to size
      invariant |input.rest| <= |old(input.rest)|
      invariant SkipItems(etype, size - i, input.rest) == SkipItems(etype, size, old(input.rest))
    {
      ok := SkipValue(etype, input);
      if !ok {
        return;
      }
    }
    ok := input.Expect(end);
  }

  // ---------------------------------------------------------------------------
  // Reading
  // ---------------------------------------------------------------------------

  // readString, readI64, readBool and the others
  method ReadScalar(ghost C: Classes, kind: Kind, input: Input) returns (ok: bool, v: Value)
    modifies input
    ensures Reads(ReadValue(C, Scalar(kind), old(input.rest)), ok, v, input.rest)
  {
    var token;
    ok, token := input.Get();
    ok := ok && token.Datum? && token.kind == kind;
    v := if ok then Atom(kind, token.payload) else Null;
  }

  method ReadAny(C: Classes, t: Type, input: Input) returns (ok: bool, v: Value)
    modifies input
    ensures Reads(ReadValue(C, t, old(input.rest)), ok, v, input.rest)
    decreases |input.rest|, 0, 1
  {
    match t {
      case Scalar(kind) => ok, v := ReadScalar(C, kind, input);
      case Struct(cls) => ok, v := ReadNew(C, cls, input);
      case Map(key, val) => ok, v := ReadMap(C, key, val, input);
      case List(elem) => ok, v := ReadList(C, elem, false, input);
      case Set(elem) => ok, v := ReadList(C, elem, true, input);
    }
  }

  // new $class() and read
  method ReadNew(C: Classes, cls: string, input: Input) returns (ok: bool, v: Value)
    modifies input
    ensures Reads(ReadValue(C, Struct(cls), old(input.rest)), ok, v, input.rest)
    decreases |input.rest|, 0, 0
  {
    v := Null;
    if cls !in C {
      return false, v;
    }
    var fields := C[cls];
    var vars := new Value[|fields|](i requires 0 <= i < |fields| => fields[i].initial);
    assert vars[..] == Initial(fields);
    ok := input.Expect(StructBegin);
    if ok {
      ok := ReadStruct(C, fields, vars, input);
      v := Object(cls, vars[..]);
    }
  }

  // _read from its loop on, into the vars of an object.
  method ReadStruct(C: Classes, fields: seq<Field>, vars: array<Value>, input: Input) returns (ok: bool)
    requires vars.Length == |fields|
    modifies vars, input
    ensures Reads(ReadFields(C, fields, old(vars[..]), old(input.rest)), ok, vars[..], input.rest)
    decreases |input.rest|, 0, 1
  {
    while true
      invariant |input.rest| <= |old(input.rest)|
      invariant ReadFields(C, fields, vars[..], input.rest) == ReadFields(C, fields, old(vars[..]), old(input.rest))
      decreases |input.rest|
    {
      var token;
      ok, token := input.Get();
      if !ok || token == FieldStop {
        break;
      }
      if !token.FieldBegin? {
        return false;
      }
      ok := ReadVar(C, fields, vars, token.ftype, token.fid, input);
      if !ok {
        return;
      }
      ok := input.Expect(FieldEnd);
      if !ok {
        return;
      }
    }
    if ok {
      ok := input.Expect(StructEnd);
    }
  }

  // One field: read into its var, or skipped.
  method ReadVar(C: Classes, fields: seq<Field>, vars: array<Value>, ftype: TType, fid: int, input: Input)
    returns (ok: bool)
    requires vars.Length == |fields|
    modifies vars, input
    ensures Reads(ReadField(C, fields, old(vars[..]), ftype, fid, old(input.rest)), ok, vars[..], input.rest)
    decreases |input.rest|, 1
  {
    var i := FieldIndex(fields, fid);
    if i < |fields| && ftype == Tag(fields[i].typ) {
      var v;
      ok, v := ReadAny(C, fields[i].typ, input);
      if ok {
        vars[i] := v;
      }
    } else {
      ok := SkipValue(ftype, input);
    }
  }

  // _readMap
  method ReadMap(C: Classes, key: Type, val: Type, input: Input) returns (ok: bool, v: Value)
    modifies input
    ensures Reads(ReadValue(C, Map(key, val), old(input.rest)), ok, v, input.rest)
    decreases |input.rest|, 0, 0
  {
    v := Null;
    var token;
    ok, token := input.Get();
    if !ok || !token.MapBegin? {
      return false, v;
    }
    ghost var begun := input.rest;
    var pairs: seq<(Value, Value)> := [];
    for i := 0 to token.size
      invariant |input.rest| <= |begun|
      invariant ReadPairs(C, key, val, token.size - i, pairs, input.rest)
                == ReadPairs(C, key, val, token.size, [], begun)
    {
      var k, w;
      ok, k := ReadAny(C, key, input);
      if !ok {
        return;
      }
      ok, w := ReadAny(C, val, input);
      if !ok || !k.Atom? {
        return false, v;
      }
      pairs := Put(pairs, k, w);
    }
    ok := input.Expect(MapEnd);
    v := Pairs(pairs);
  }

  // _readList
  method ReadList(C: Classes, elem: Type, set_: bool, input: Input) returns (ok: bool, v: Value)
    modifies input
    ensures Reads(ReadValue(C, ListType(elem, set_), old(input.rest)), ok, v, input.rest)
    decreases |input.rest|, 0, 0
  {
    v := Null;
    var token;
    ok, token := input.Get();
    if !ok || (if set_ then !token.SetBegin? else !token.ListBegin?) {
      return false, v;
    }
    var items;
    ok, items := ReadElements(C, elem, set_, token.size, input);
    if ok {
      ok := input.Expect(if set_ then SetEnd else ListEnd);
    }
    v := Items(items);
  }

  // Its loop.
  method ReadElements(C: Classes, elem: Type, set_: bool, size: nat, input: Input) returns (ok: bool, items: seq<Value>)
    modifies input
    ensures Reads(ReadItems(C, elem, set_, size, [], old(input.rest)), ok, items, input.rest)
    decreases |input.rest|, 1
  {
    ok, items := true, [];
    for i := 0 to size
      invariant ok && |input.rest| <= |old(input.rest)|
      invariant ReadItems(C, elem, set_, size - i, items, input.rest)
                == ReadItems(C, elem, set_, size, [], old(input.rest))
    {
      var e;
      ok, e := ReadAny(C, elem, input);
      if !ok || (set_ && !e.Atom?) {
        return false, items;
      }
      items := if set_ then PutItem(items, e) else items + [e];
    }
  }
}
