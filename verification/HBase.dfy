// Readers and writers that were generated without the loops over $_TSPEC
// (dataChange/thrift/lib/HBase/Types.php), against those of Thrift.php that go by it.
module HBase {
  import opened Wire
  import opened Serialization
  import opened WireVersions

  const FALSE := Atom(BOOL, "0")
  const TRUE := Atom(BOOL, "1")

  // The $_TSPEC of each class, with the values of its vars in a new object.
  const TCELL: seq<Field> := [Field(1, Scalar(STRING), Null), Field(2, Scalar(I64), Null)]
  const TCOLUMN: seq<Field> := [Field(1, Scalar(STRING), Null), Field(2, Struct("TCell"), Null)]
  const TROWRESULT: seq<Field> := [
    Field(1, Scalar(STRING), Null), Field(2, Map(Scalar(STRING), Struct("TCell")), Null),
        Field(3, List(Struct("TColumn")), Null)]
  const MUTATION: seq<Field> := [
    Field(1, Scalar(BOOL), FALSE), Field(2, Scalar(STRING), Null), Field(3, Scalar(STRING), Null),
        Field(4, Scalar(BOOL), TRUE)]

  const SPECS: Classes := map["TCell" := TCELL, "TColumn" := TCOLUMN, "TRowResult" := TROWRESULT,
                              "Mutation" := MUTATION]

  // readFieldBegin and the test for the end; false also if there is no field.
  method FieldBegins(input: Input) returns (ok: bool, more: bool, ftype: TType, fid: int)
    modifies input
    ensures more ==> ok && old(input.rest) != [] && old(input.rest)[0] == FieldBegin(ftype, fid)
    ensures ok && !more ==> old(input.rest) != [] && old(input.rest)[0] == FieldStop
    ensures ok ==> input.rest == old(input.rest)[1..]
    ensures !ok ==> old(input.rest) == [] || (!old(input.rest)[0].FieldStop? && !old(input.rest)[0].FieldBegin?)
  {
    more, ftype, fid := false, STRUCT, 0;
    var token;
    ok, token := input.Get();
    if ok {
      match token {
        case FieldStop =>
        case FieldBegin(t, id) => more, ftype, fid := true, t, id;
        case _ => ok := false;
      }
    }
  }

  method BeginStruct(cls: string, v: Value, output: Output)
    requires WellTyped(SPECS, Struct(cls), v)
    modifies output
    ensures output.sent + WriteVars(SPECS, v, 0) == old(output.sent) + Write(SPECS, Struct(cls), v)
  {
    output.Put(StructBegin);
  }

  method EndStruct(cls: string, v: Value, output: Output)
    requires WellTyped(SPECS, Struct(cls), v)
    modifies output
    ensures output.sent == old(output.sent) + WriteVars(SPECS, v, |v.vars|)
  {
    output.Put(FieldStop);
    output.Put(StructEnd);
  }

  // A field that is written, and what follows it.
  lemma {:induction false} FieldWritten(v: Value, i: nat, sent: seq<Token>)
    requires v.Object? && WellTyped(SPECS, Struct(v.cls), v) && i < |v.vars| && v.vars[i] != Null
    ensures var field := SPECS[v.cls][i];
            sent + [FieldBegin(Tag(field.typ), field.fid)] + Write(SPECS, field.typ, v.vars[i]) + [FieldEnd]
                + WriteVars(SPECS, v, i + 1)
            == sent + WriteVars(SPECS, v, i)
  {
  }

  // ---------------------------------------------------------------------------
  // TCell
  // ---------------------------------------------------------------------------

  method ReadTCell(input: Input) returns (ok: bool, v: Value)
    modifies input
    ensures Reads(ReadValue(SPECS, Struct("TCell"), old(input.rest)), ok, v, input.rest)
  {
    v := Null;
    ok := input.Expect(StructBegin);
    if !ok {
      return;
    }
    var value, timestamp := Null, Null;
    ghost var begun := input.rest;
    assert Initial(TCELL) == [value, timestamp];
    while true
      invariant |input.rest| <= |begun|
      invariant ReadFields(SPECS, TCELL, [value, timestamp], input.rest)
                == ReadFields(SPECS, TCELL, [Null, Null], begun)
      decreases |input.rest|
    {
      var more, ftype, fid;
      ok, more, ftype, fid := FieldBegins(input);
      if !more {
        break;
      }
      ok, value, timestamp := ReadTCellField(ftype, fid, value, timestamp, input);
      if !ok {
        return;
      }
      ok := input.Expect(FieldEnd);
      if !ok {
        return;
      }
    }
    if ok {
      ok := input.Expect(StructEnd);
      v := Object("TCell", [value, timestamp]);
    }
  }

  method ReadTCellField(ftype: TType, fid: int, value: Value, timestamp: Value, input: Input)
    returns (ok: bool, value': Value, timestamp': Value)
    modifies input
    ensures Reads(ReadField(SPECS, TCELL, [value, timestamp], ftype, fid, old(input.rest)), ok, [value', timestamp'],
                  input.rest)
  {
    value', timestamp' := value, timestamp;
    assert TCELL[0].fid == 1 && TCELL[1].fid == 2;
    if fid == 1 && ftype == Of(STRING) {
      ok, value' := ReadScalar(SPECS, STRING, input);
      assert [value, timestamp][0 := value'] == [value', timestamp];
    } else if fid == 2 && ftype == Of(I64) {
      ok, timestamp' := ReadScalar(SPECS, I64, input);
      assert [value, timestamp][1 := timestamp'] == [value, timestamp'];
    } else {
      ok := SkipValue(ftype, input);
    }
  }

  method WriteTCellValue(v: Value, output: Output)
    requires WellTyped(SPECS, Struct("TCell"), v)
    modifies output
    ensures output.sent + WriteVars(SPECS, v, 1) == old(output.sent) + WriteVars(SPECS, v, 0)
  {
    if v.vars[0] != Null {
      FieldWritten(v, 0, output.sent);
      output.Put(FieldBegin(Of(STRING), 1));
      output.Put(Datum(STRING, v.vars[0].payload));
      output.Put(FieldEnd);
    }
  }

  method WriteTCellTimestamp(v: Value, output: Output)
    requires WellTyped(SPECS, Struct("TCell"), v)
    modifies output
    ensures output.sent + WriteVars(SPECS, v, 2) == old(output.sent) + WriteVars(SPECS, v, 1)
  {
    if v.vars[1] != Null {
      FieldWritten(v, 1, output.sent);
      output.Put(FieldBegin(Of(I64), 2));
      output.Put(Datum(I64, v.vars[1].payload));
      output.Put(FieldEnd);
    }
  }

  method WriteTCell(v: Value, output: Output)
    requires WellTyped(SPECS, Struct("TCell"), v)
    modifies output
    ensures output.sent == old(output.sent) + Write(SPECS, Struct("TCell"), v)
  {
    BeginStruct("TCell", v, output);
    WriteTCellValue(v, output);
    WriteTCellTimestamp(v, output);
    EndStruct("TCell", v, output);
  }

  // ---------------------------------------------------------------------------
  // TColumn
  // ---------------------------------------------------------------------------

  method ReadTColumn(input: Input) returns (ok: bool, v: Value)
    modifies input
    ensures Reads(ReadValue(SPECS, Struct("TColumn"), old(input.rest)), ok, v, input.rest)
  {
    v := Null;
    ok := input.Expect(StructBegin);
    if !ok {
      return;
    }
    var columnName, cell := Null, Null;
    ghost var begun := input.rest;
    assert Initial(TCOLUMN) == [columnName, cell];
    while true
      invariant |input.rest| <= |begun|
      invariant ReadFields(SPECS, TCOLUMN, [columnName, cell], input.rest)
                == ReadFields(SPECS, TCOLUMN, [Null, Null], begun)
      decreases |input.rest|
    {
      var more, ftype, fid;
      ok, more, ftype, fid := FieldBegins(input);
      if !more {
        break;
      }
      ok, columnName, cell := ReadTColumnField(ftype, fid, columnName, cell, input);
      if !ok {
        return;
      }
      ok := input.Expect(FieldEnd);
      if !ok {
        return;
      }
    }
    if ok {
      ok := input.Expect(StructEnd);
      v := Object("TColumn", [columnName, cell]);
    }
  }

  method ReadTColumnField(ftype: TType, fid: int, columnName: Value, cell: Value, input: Input)
    returns (ok: bool, columnName': Value, cell': Value)
    modifies input
    ensures Reads(ReadField(SPECS, TCOLUMN, [columnName, cell], ftype, fid, old(input.rest)), ok, [columnName', cell'],
                  input.rest)
  {
    columnName', cell' := columnName, cell;
    assert TCOLUMN[0].fid == 1 && TCOLUMN[1].fid == 2;
    if fid == 1 && ftype == Of(STRING) {
      ok, columnName' := ReadScalar(SPECS, STRING, input);
      assert [columnName, cell][0 := columnName'] == [columnName', cell];
    } else if fid == 2 && ftype == STRUCT {
      ok, cell' := ReadTCell(input);
      assert [columnName, cell][1 := cell'] == [columnName, cell'];
    } else {
      ok := SkipValue(ftype, input);
    }
  }

  method WriteTColumnColumnName(v: Value, output: Output)
    requires WellTyped(SPECS, Struct("TColumn"), v)
    modifies output
    ensures output.sent + WriteVars(SPECS, v, 1) == old(output.sent) + WriteVars(SPECS, v, 0)
  {
    if v.vars[0] != Null {
      FieldWritten(v, 0, output.sent);
      output.Put(FieldBegin(Of(STRING), 1));
      output.Put(Datum(STRING, v.vars[0].payload));
      output.Put(FieldEnd);
    }
  }

  method WriteTColumnCell(v: Value, output: Output)
    requires WellTyped(SPECS, Struct("TColumn"), v)
    modifies output
    ensures output.sent + WriteVars(SPECS, v, 2) == old(output.sent) + WriteVars(SPECS, v, 1)
  {
    if v.vars[1] != Null {
      FieldWritten(v, 1, output.sent);
      output.Put(FieldBegin(STRUCT, 2));
      WriteTCell(v.vars[1], output);
      output.Put(FieldEnd);
    }
  }

  method WriteTColumn(v: Value, output: Output)
    requires WellTyped(SPECS, Struct("TColumn"), v)
    modifies output
    ensures output.sent == old(output.sent) + Write(SPECS, Struct("TColumn"), v)
  {
    BeginStruct("TColumn", v, output);
    WriteTColumnColumnName(v, output);
    WriteTColumnCell(v, output);
    EndStruct("TColumn", v, output);
  }

  // ---------------------------------------------------------------------------
  // TRowResult
  // ---------------------------------------------------------------------------

  method ReadTCellMap(input: Input) returns (ok: bool, v: Value)
    modifies input
    ensures Reads(ReadValue(SPECS, Map(Scalar(STRING), Struct("TCell")), old(input.rest)), ok, v, input.rest)
  {
    v := Null;
    var token;
    ok, token := input.Get();
    if !ok || !token.MapBegin? {
      return false, v;
    }
    ghost var begun := input.rest;
    var pairs: seq<(Value, Value)> := [];
    for i := 0 to token.size
      invariant |input.rest| <= |begun|
      invariant ReadPairs(SPECS, Scalar(STRING), Struct("TCell"), token.size - i, pairs, input.rest)
             == ReadPairs(SPECS, Scalar(STRING), Struct("TCell"), token.size, [], begun)
    {
      var key, val;
      ok, key := ReadScalar(SPECS, STRING, input);
      if !ok {
        return;
      }
      ok, val := ReadTCell(input);
      if !ok {
        return;
      }
      pairs := Put(pairs, key, val);
    }
    ok := input.Expect(MapEnd);
    v := Pairs(pairs);
  }

  method ReadTColumns(input: Input) returns (ok: bool, v: Value)
    modifies input
    ensures Reads(ReadValue(SPECS, List(Struct("TColumn")), old(input.rest)), ok, v, input.rest)
  {
    v := Null;
    var token;
    ok, token := input.Get();
    if !ok || !token.ListBegin? {
      return false, v;
    }
    ghost var begun := input.rest;
    var items: seq<Value> := [];
    for i := 0 to token.size
      invariant |input.rest| <= |begun|
      invariant ReadItems(SPECS, Struct("TColumn"), false, token.size - i, items, input.rest)
             == ReadItems(SPECS, Struct("TColumn"), false, token.size, [], begun)
    {
      var e;
      ok, e := ReadTColumn(input);
      if !ok {
        return;
      }
      items := items + [e];
    }
    ok := input.Expect(ListEnd);
    v := Items(items);
  }

  method ReadTRowResult(input: Input) returns (ok: bool, v: Value)
    modifies input
    ensures Reads(ReadValue(SPECS, Struct("TRowResult"), old(input.rest)), ok, v, input.rest)
  {
    v := Null;
    ok := input.Expect(StructBegin);
    if !ok {
      return;
    }
    var row, columns, sortedColumns := Null, Null, Null;
    ghost var begun := input.rest;
    assert Initial(TROWRESULT) == [row, columns, sortedColumns];
    while true
      invariant |input.rest| <= |begun|
      invariant ReadFields(SPECS, TROWRESULT, [row, columns, sortedColumns], input.rest)
                == ReadFields(SPECS, TROWRESULT, [Null, Null, Null], begun)
      decreases |input.rest|
    {
      var more, ftype, fid;
      ok, more, ftype, fid := FieldBegins(input);
      if !more {
        break;
      }
      ok, row, columns, sortedColumns := ReadTRowResultField(ftype, fid, row, columns, sortedColumns, input);
      if !ok {
        return;
      }
      ok := input.Expect(FieldEnd);
      if !ok {
        return;
      }
    }
    if ok {
      ok := input.Expect(StructEnd);
      v := Object("TRowResult", [row, columns, sortedColumns]);
    }
  }

  method ReadTRowResultField(ftype: TType, fid: int, row: Value, columns: Value, sortedColumns: Value, input: Input)
    returns (ok: bool, row': Value, columns': Value, sortedColumns': Value)
    modifies input
    ensures Reads(ReadField(SPECS, TROWRESULT, [row, columns, sortedColumns], ftype, fid, old(input.rest)), ok,
                  [row', columns', sortedColumns'], input.rest)
  {
    row', columns', sortedColumns' := row, columns, sortedColumns;
    assert TROWRESULT[0].fid == 1 && TROWRESULT[1].fid == 2 && TROWRESULT[2].fid == 3;
    if fid == 1 && ftype == Of(STRING) {
      ok, row' := ReadScalar(SPECS, STRING, input);
      assert [row, columns, sortedColumns][0 := row'] == [row', columns, sortedColumns];
    } else if fid == 2 && ftype == MAP {
      ok, columns' := ReadTCellMap(input);
      assert [row, columns, sortedColumns][1 := columns'] == [row, columns', sortedColumns];
    } else if fid == 3 && ftype == LST {
      ok, sortedColumns' := ReadTColumns(input);
      assert [row, columns, sortedColumns][2 := sortedColumns'] == [row, columns, sortedColumns'];
    } else {
      ok := SkipValue(ftype, input);
    }
  }

  method WriteTCellMap(v: Value, output: Output)
    requires WellTyped(SPECS, Map(Scalar(STRING), Struct("TCell")), v)
    modifies output
    ensures output.sent == old(output.sent) + Write(SPECS, Map(Scalar(STRING), Struct("TCell")), v)
  {
    output.Put(MapBegin(Of(STRING), STRUCT, |v.pairs|));
    WriteTCellEntries(v, output);
  }

  method WriteTCellEntries(v: Value, output: Output)
    requires WellTyped(SPECS, Map(Scalar(STRING), Struct("TCell")), v)
    modifies output
    ensures output.sent == old(output.sent) + WritePairs(SPECS, Scalar(STRING), Struct("TCell"), v, 0)
  {
    ghost var all := output.sent + WritePairs(SPECS, Scalar(STRING), Struct("TCell"), v, 0);
    for i := 0 to |v.pairs|
      invariant output.sent + WritePairs(SPECS, Scalar(STRING), Struct("TCell"), v, i) == all
    {
      PairWritten(SPECS, Scalar(STRING), Struct("TCell"), v, i, output.sent);
      assert Write(SPECS, Scalar(STRING), v.pairs[i].0) == [Datum(STRING, v.pairs[i].0.payload)];
      output.Put(Datum(STRING, v.pairs[i].0.payload));
      WriteTCell(v.pairs[i].1, output);
    }
    output.Put(MapEnd);
  }

  method WriteTColumns(v: Value, output: Output)
    requires WellTyped(SPECS, List(Struct("TColumn")), v)
    modifies output
    ensures output.sent == old(output.sent) + Write(SPECS, List(Struct("TColumn")), v)
  {
    assert Write(SPECS, List(Struct("TColumn")), v)
           == [ListBegin(STRUCT, |v.items|)] + WriteItems(SPECS, Struct("TColumn"), v, 0) + [ListEnd];
    output.Put(ListBegin(STRUCT, |v.items|));
    ghost var all := output.sent + WriteItems(SPECS, Struct("TColumn"), v, 0);
    for i := 0 to |v.items|
      invariant output.sent + WriteItems(SPECS, Struct("TColumn"), v, i) == all
    {
      WriteTColumn(v.items[i], output);
    }
    assert output.sent == all;
    output.Put(ListEnd);
  }

  method WriteTRowResultRow(v: Value, output: Output)
    requires WellTyped(SPECS, Struct("TRowResult"), v)
    modifies output
    ensures output.sent + WriteVars(SPECS, v, 1) == old(output.sent) + WriteVars(SPECS, v, 0)
  {
    if v.vars[0] != Null {
      FieldWritten(v, 0, output.sent);
      output.Put(FieldBegin(Of(STRING), 1));
      output.Put(Datum(STRING, v.vars[0].payload));
      output.Put(FieldEnd);
    }
  }

  method WriteTRowResultColumns(v: Value, output: Output)
    requires WellTyped(SPECS, Struct("TRowResult"), v)
    modifies output
    ensures output.sent + WriteVars(SPECS, v, 2) == old(output.sent) + WriteVars(SPECS, v, 1)
  {
    if v.vars[1] != Null {
      FieldWritten(v, 1, output.sent);
      output.Put(FieldBegin(MAP, 2));
      WriteTCellMap(v.vars[1], output);
      output.Put(FieldEnd);
    }
  }

  method WriteTRowResultSortedColumns(v: Value, output: Output)
    requires WellTyped(SPECS, Struct("TRowResult"), v)
    modifies output
    ensures output.sent + WriteVars(SPECS, v, 3) == old(output.sent) + WriteVars(SPECS, v, 2)
  {
    if v.vars[2] != Null {
      FieldWritten(v, 2, output.sent);
      output.Put(FieldBegin(LST, 3));
      WriteTColumns(v.vars[2], output);
      output.Put(FieldEnd);
    }
  }

  method WriteTRowResult(v: Value, output: Output)
    requires WellTyped(SPECS, Struct("TRowResult"), v)
    modifies output
    ensures output.sent == old(output.sent) + Write(SPECS, Struct("TRowResult"), v)
  {
    BeginStruct("TRowResult", v, output);
    WriteTRowResultRow(v, output);
    WriteTRowResultColumns(v, output);
    WriteTRowResultSortedColumns(v, output);
    EndStruct("TRowResult", v, output);
  }

  // ---------------------------------------------------------------------------
  // Mutation
  // ---------------------------------------------------------------------------

  method ReadMutation(input: Input) returns (ok: bool, v: Value)
    modifies input
    ensures Reads(ReadValue(SPECS, Struct("Mutation"), old(input.rest)), ok, v, input.rest)
  {
    v := Null;
    ok := input.Expect(StructBegin);
    if !ok {
      return;
    }
    var isDelete, column, value, writeToWAL := FALSE, Null, Null, TRUE;
    ghost var begun := input.rest;
    assert Initial(MUTATION) == [isDelete, column, value, writeToWAL];
    while true
      invariant |input.rest| <= |begun|
      invariant ReadFields(SPECS, MUTATION, [isDelete, column, value, writeToWAL], input.rest)
                == ReadFields(SPECS, MUTATION, [FALSE, Null, Null, TRUE], begun)
      decreases |input.rest|
    {
      var more, ftype, fid;
      ok, more, ftype, fid := FieldBegins(input);
      if !more {
        break;
      }
      ok, isDelete, column, value, writeToWAL :=
          ReadMutationField(ftype, fid, isDelete, column, value, writeToWAL, input);
      if !ok {
        return;
      }
      ok := input.Expect(FieldEnd);
      if !ok {
        return;
      }
    }
    if ok {
      ok := input.Expect(StructEnd);
      v := Object("Mutation", [isDelete, column, value, writeToWAL]);
    }
  }

  method ReadMutationField(ftype: TType, fid: int, isDelete: Value, column: Value, value: Value, writeToWAL: Value,
                           input: Input)
    returns (ok: bool, isDelete': Value, column': Value, value': Value, writeToWAL': Value)
    modifies input
    ensures Reads(ReadField(SPECS, MUTATION, [isDelete, column, value, writeToWAL], ftype, fid, old(input.rest)), ok,
                  [isDelete', column', value', writeToWAL'], input.rest)
  {
    isDelete', column', value', writeToWAL' := isDelete, column, value, writeToWAL;
    assert MUTATION[0].fid == 1 && MUTATION[1].fid == 2 && MUTATION[2].fid == 3 && MUTATION[3].fid == 4;
    if fid == 1 && ftype == Of(BOOL) {
      ok, isDelete' := ReadScalar(SPECS, BOOL, input);
      assert [isDelete, column, value, writeToWAL][0 := isDelete'] == [isDelete', column, value, writeToWAL];
    } else if fid == 2 && ftype == Of(STRING) {
      ok, column' := ReadScalar(SPECS, STRING, input);
      assert [isDelete, column, value, writeToWAL][1 := column'] == [isDelete, column', value, writeToWAL];
    } else if fid == 3 && ftype == Of(STRING) {
      ok, value' := ReadScalar(SPECS, STRING, input);
      assert [isDelete, column, value, writeToWAL][2 := value'] == [isDelete, column, value', writeToWAL];
    } else if fid == 4 && ftype == Of(BOOL) {
      ok, writeToWAL' := ReadScalar(SPECS, BOOL, input);
      assert [isDelete, column, value, writeToWAL][3 := writeToWAL'] == [isDelete, column, value, writeToWAL'];
    } else {
      ok := SkipValue(ftype, input);
    }
  }

  method WriteMutationIsDelete(v: Value, output: Output)
    requires WellTyped(SPECS, Struct("Mutation"), v)
    modifies output
    ensures output.sent + WriteVars(SPECS, v, 1) == old(output.sent) + WriteVars(SPECS, v, 0)
  {
    if v.vars[0] != Null {
      FieldWritten(v, 0, output.sent);
      output.Put(FieldBegin(Of(BOOL), 1));
      output.Put(Datum(BOOL, v.vars[0].payload));
      output.Put(FieldEnd);
    }
  }

  method WriteMutationColumn(v: Value, output: Output)
    requires WellTyped(SPECS, Struct("Mutation"), v)
    modifies output
    ensures output.sent + WriteVars(SPECS, v, 2) == old(output.sent) + WriteVars(SPECS, v, 1)
  {
    if v.vars[1] != Null {
      FieldWritten(v, 1, output.sent);
      output.Put(FieldBegin(Of(STRING), 2));
      output.Put(Datum(STRING, v.vars[1].payload));
      output.Put(FieldEnd);
    }
  }

  method WriteMutationValue(v: Value, output: Output)
    requires WellTyped(SPECS, Struct("Mutation"), v)
    modifies output
    ensures output.sent + WriteVars(SPECS, v, 3) == old(output.sent) + WriteVars(SPECS, v, 2)
  {
    if v.vars[2] != Null {
      FieldWritten(v, 2, output.sent);
      output.Put(FieldBegin(Of(STRING), 3));
      output.Put(Datum(STRING, v.vars[2].payload));
      output.Put(FieldEnd);
    }
  }

  method WriteMutationWriteToWAL(v: Value, output: Output)
    requires WellTyped(SPECS, Struct("Mutation"), v)
    modifies output
    ensures output.sent + WriteVars(SPECS, v, 4) == old(output.sent) + WriteVars(SPECS, v, 3)
  {
    if v.vars[3] != Null {
      FieldWritten(v, 3, output.sent);
      output.Put(FieldBegin(Of(BOOL), 4));
      output.Put(Datum(BOOL, v.vars[3].payload));
      output.Put(FieldEnd);
    }
  }

  method WriteMutation(v: Value, output: Output)
    requires WellTyped(SPECS, Struct("Mutation"), v)
    modifies output
    ensures output.sent == old(output.sent) + Write(SPECS, Struct("Mutation"), v)
  {
    BeginStruct("Mutation", v, output);
    WriteMutationIsDelete(v, output);
    WriteMutationColumn(v, output);
    WriteMutationValue(v, output);
    WriteMutationWriteToWAL(v, output);
    EndStruct("Mutation", v, output);
  }

  // ---------------------------------------------------------------------------
  // What survives
  // ---------------------------------------------------------------------------

  lemma {:induction false} SpecsWellFormed()
    ensures WellFormed(SPECS)
  {
    forall cls | cls in SPECS
      ensures DistinctIds(SPECS[cls]) && forall i :: 0 <= i < |SPECS[cls]| ==> Known(SPECS, SPECS[cls][i].typ)
    {
      assert SPECS[cls] in [TCELL, TCOLUMN, TROWRESULT, MUTATION];
    }
  }

  // A row is read back as it was written.
  lemma {:induction false} RowRoundTrip(v: Value, rest: seq<Token>)
    requires WellTyped(SPECS, Struct("TRowResult"), v)
    ensures ReadValue(SPECS, Struct("TRowResult"), Write(SPECS, Struct("TRowResult"), v) + rest) == Done(v, rest)
  {
    SpecsWellFormed();
    RoundTrip(SPECS, Struct("TRowResult"), v, rest);
    RowNulls(v);
  }

  lemma {:induction false} CellNulls(v: Value)
    requires WellTyped(SPECS, Struct("TCell"), v)
    ensures NullsInitial(SPECS, v)
  {
    assert TCELL[0].initial == Null && TCELL[1].initial == Null;
  }

  lemma {:induction false} ColumnNulls(v: Value)
    requires WellTyped(SPECS, Struct("TColumn"), v)
    ensures NullsInitial(SPECS, v)
  {
    assert TCOLUMN[0].initial == Null && TCOLUMN[1].initial == Null;
    if v.vars[1] != Null {
      CellNulls(v.vars[1]);
    }
  }

  lemma {:induction false} RowNulls(v: Value)
    requires WellTyped(SPECS, Struct("TRowResult"), v)
    ensures NullsInitial(SPECS, v)
  {
    assert TROWRESULT[0].initial == TROWRESULT[1].initial == TROWRESULT[2].initial == Null;
    if v.vars[1] != Null {
      forall i | 0 <= i < |v.vars[1].pairs|
        ensures NullsInitial(SPECS, v.vars[1].pairs[i].1)
      {
        CellNulls(v.vars[1].pairs[i].1);
      }
    }
    if v.vars[2] != Null {
      forall i | 0 <= i < |v.vars[2].items|
        ensures NullsInitial(SPECS, v.vars[2].items[i])
      {
        ColumnNulls(v.vars[2].items[i]);
      }
    }
  }

  // A new mutation is no deletion and is written to the log: so is one that is read from no fields.
  lemma {:induction false} NewMutation(rest: seq<Token>)
    ensures ReadValue(SPECS, Struct("Mutation"), [StructBegin, FieldStop, StructEnd] + rest)
         == Done(Object("Mutation", [Atom(BOOL, "0"), Null, Null, Atom(BOOL, "1")]), rest)
  {
    var ts := [StructBegin, FieldStop, StructEnd] + rest;
    assert ts[1..] == [FieldStop, StructEnd] + rest && ts[1..][2..] == rest;
    assert Initial(MUTATION) == [Atom(BOOL, "0"), Null, Null, Atom(BOOL, "1")];
  }

  // A mutation is, exactly if the two vars that a new one has values for are not null.
  lemma {:induction false} MutationRoundTrip(v: Value, rest: seq<Token>)
    requires WellTyped(SPECS, Struct("Mutation"), v)
    ensures ReadValue(SPECS, Struct("Mutation"), Write(SPECS, Struct("Mutation"), v) + rest) == Done(v, rest)
        <==> v.vars[0] != Null && v.vars[3] != Null
  {
    SpecsWellFormed();
    RoundTrip(SPECS, Struct("Mutation"), v, rest);
    assert MUTATION[0].initial == FALSE && MUTATION[1].initial == MUTATION[2].initial == Null
           && MUTATION[3].initial == TRUE;
  }
}
