// The writing half of Thrift.Protocol (thrift/lib/js/thrift.js), and the calls by which the code
// generated for a struct writes it.
module JsonWriter {
  import opened Wire
  import J = Json

  // Thrift.Protocol.Type, without the quotation marks.
  function TypeName(t: TType): (name: string)
    ensures J.Quote(name) == "\"" + name + "\"" && J.Clean(name)
  {
    var name := Name(t);
    J.EscapePlain(name);
    name
  }

  function Name(t: TType): (name: string)
    ensures forall i :: 0 <= i < |name| ==> 'a' <= name[i] <= 'z' || '1' <= name[i] <= '8'
  {
    match t
    case Of(BOOL) => "tf"
    case Of(BYTE) => "i8"
    case Of(I16) => "i16"
    case Of(I32) => "i32"
    case Of(I64) => "i64"
    case Of(DOUBLE) => "dbl"
    case Of(STRING) => "str"
    case STRUCT => "rec"
    case MAP => "map"
    case LST => "lst"
    case SET => "set"
  }

  // ---------------------------------------------------------------------------
  // The tree whose text is written for a value
  // ---------------------------------------------------------------------------

  // What is false in JavaScript: no field is written for it.
  predicate Falsy(v: Value) {
    match v
    case Null => true
    case Atom(STRING, payload) => payload == ""
    case Atom(BOOL, payload) => payload != "1"
    case Atom(_, payload) => payload == "NaN" || J.ZeroText(payload)
    case _ => false
  }

  // The keys of a map are the names of an object's properties.
  function PropertyName(key: Value): string {
    match key
    case Atom(BOOL, payload) => if payload == "1" then "true" else "false"
    case Atom(_, payload) => payload
    case _ => ""
  }

  // What a key is written as. To writeBool every name but the empty one is true.
  function KeyName(key: Value): string {
    if key.Atom? && key.kind == BOOL then (if PropertyName(key) != "" then "1" else "0") else PropertyName(key)
  }

  // The tree of a value: with every member that is written, or as it is read. (What there is no value
  // for is read from an empty object.)
  function Tree(C: Classes, t: Type, v: Value, written: bool): J.Json
    decreases v, 1, 0
  {
    match (t, v)
    case (Scalar(STRING), Atom(_, payload)) => J.Str(payload)
    case (Scalar(BOOL), Atom(_, payload)) => J.Num(if payload == "1" then "1" else "0")
    case (Scalar(_), Atom(_, payload)) => J.Num(payload)
    case (Struct(_), Object(_, _)) => J.Obj(Members(C, v, written, 0))
    case (Map(key, val), Pairs(pairs)) =>
      J.Arr([J.Str(TypeName(Tag(key))), J.Str(TypeName(Tag(val))), J.Num(J.Decimal(|pairs|)),
             J.Obj(Entries(C, val, v, written, if written then 0 else FirstRead(key, v)))])
    case (List(elem), Items(items)) =>
      J.Arr([J.Str(TypeName(Tag(elem))), J.Num(J.Decimal(|items|))] + Elements(C, elem, v, written, 0))
    case (Set(elem), Items(items)) =>
      J.Arr([J.Str(TypeName(Tag(elem))), J.Num(J.Decimal(|items|))] + Elements(C, elem, v, written, 0))
    case _ => J.Obj([])
  }

  // A field is a member of its struct's object, named by its id.
  function FieldMember(C: Classes, field: Field, v: Value, written: bool): J.Member
    decreases v, 2, 0
  {
    J.Member(J.Numeral(field.fid), J.Obj([J.Member(TypeName(Tag(field.typ)), Tree(C, field.typ, v, written))]))
  }

  // Those of the vars from i on that are written.
  function Members(C: Classes, v: Value, written: bool, i: nat): seq<J.Member>
    requires v.Object?
    decreases v, 0, |v.vars| - i
  {
    if v.cls !in C || |C[v.cls]| != |v.vars| || |v.vars| <= i then []
    else
      (if Falsy(v.vars[i]) then [] else [FieldMember(C, C[v.cls][i], v.vars[i], written)])
          + Members(C, v, written, i + 1)
  }

  // The pairs from i on.
  function Entries(C: Classes, val: Type, v: Value, written: bool, i: nat): seq<J.Member>
    requires v.Pairs?
    decreases v, 0, |v.pairs| - i
  {
    if |v.pairs| <= i then []
    else [J.Member(KeyName(v.pairs[i].0), Tree(C, val, v.pairs[i].1, written))] + Entries(C, val, v, written, i + 1)
  }

  // Boolean keys are all written as the same: the last pair is the only one that is read.
  function FirstRead(key: Type, v: Value): (i: nat)
    requires v.Pairs?
    ensures i <= |v.pairs| && (v.pairs != [] ==> i < |v.pairs|)
  {
    if key == Scalar(BOOL) && v.pairs != [] then |v.pairs| - 1 else 0
  }

  function Elements(C: Classes, elem: Type, v: Value, written: bool, i: nat): seq<J.Json>
    requires v.Items?
    decreases v, 0, |v.items| - i
  {
    if |v.items| <= i then [] else [Tree(C, elem, v.items[i], written)] + Elements(C, elem, v, written, i + 1)
  }

  // ---------------------------------------------------------------------------
  // The stack machine
  // ---------------------------------------------------------------------------

  // What tstack holds: finished text, a struct's fields so far, a field that is being written, or
  // the beginning of an array.
  datatype Entry =
    | Text(text: string)
    | Fields(fields: seq<(string, string)>)
    | FieldInfo(fieldId: string, fieldType: string)
    | Parts(parts: seq<string>)

  // struct[key] = text: a key that is there keeps its place.
  function SetField(fields: seq<(string, string)>, key: string, text: string): seq<(string, string)> {
    if fields == [] then [(key, text)]
    else if fields[0].0 == key then [(key, text)] + fields[1..]
    else [fields[0]] + SetField(fields[1..], key, text)
  }

  function FieldTexts(fields: seq<(string, string)>): seq<string> {
    seq(|fields|, i requires 0 <= i < |fields| => fields[i].0 + ":" + fields[i].1)
  }

  // isNaN of a text on the stack.
  predicate IsNaN(k: string) { k != "" && k != "Infinity" && k != "-Infinity" && !J.NumberText(k) }

  // JSON keys have to be strings.
  function KeyText(k: string): string {
    if IsNaN(k) then k else "\"" + k + "\""
  }

  // Keys and values in turn, as an object's members; a last key without a value has an empty one.
  function PairTexts(texts: seq<string>): seq<string> {
    if texts == [] then [] else if |texts| == 1 then [KeyText(texts[0]) + ":"]
    else [KeyText(texts[0]) + ":" + texts[1]] + PairTexts(texts[2..])
  }

  // A map's array: the last of its parts is the size, which is counted anew.
  function MapText(parts: seq<string>, texts: seq<string>): string
    requires parts != []
  {
    "[" + J.Join(parts[..|parts| - 1] + [J.Decimal((|texts| + 1) / 2)] + ["{" + J.Join(PairTexts(texts)) + "}"]) + "]"
  }

  ghost predicate AllText(entries: seq<Entry>) {
    forall i :: 0 <= i < |entries| ==> entries[i].Text?
  }

  function Texts(entries: seq<Entry>): seq<string>
    requires AllText(entries)
  {
    seq(|entries|, i requires 0 <= i < |entries| => entries[i].text)
  }

  lemma {:induction false} TwoTexts(key: string, val: string, entries: seq<Entry>)
    requires AllText(entries)
    ensures PairTexts(Texts([Text(key), Text(val)] + entries)) == [KeyText(key) + ":" + val] + PairTexts(Texts(entries))
  {
    var texts := [key, val] + Texts(entries);
    assert Texts([Text(key), Text(val)] + entries) == texts;
    assert texts[2..] == Texts(entries);
  }

  class Writer {
    var tstack: seq<Entry>
    var tpos: seq<nat>

    constructor ()
      ensures tstack == [] && tpos == []
    {
      tstack, tpos := [], [];
    }

    // The name is not escaped.
    method WriteMessageBegin(name: string, messageType: nat, seqid: int)
      modifies this
      ensures tstack == [Parts(["1", "\"" + name + "\"", J.Decimal(messageType), J.Numeral(seqid)])] && tpos == []
    {
      tstack, tpos := [Parts(["1", "\"" + name + "\"", J.Decimal(messageType), J.Numeral(seqid)])], [];
    }

    method WriteMessageEnd() returns (wbuf: string)
      requires |tstack| == 2 && tstack[0].Parts? && tstack[1].Text?
      modifies `tstack
      ensures wbuf == "[" + J.Join(old(tstack)[0].parts + [old(tstack)[1].text]) + "]" && tstack == []
    {
      var obj := PopText();
      var wobj := tstack[|tstack| - 1].parts + [obj];
      tstack := tstack[..|tstack| - 1];
      wbuf := "[" + J.Join(wobj) + "]";
    }

    method WriteStructBegin()
      modifies this
      ensures tstack == old(tstack) + [Fields([])] && tpos == old(tpos) + [|old(tstack)|]
    {
      tpos := tpos + [|tstack|];
      tstack := tstack + [Fields([])];
    }

    method WriteStructEnd()
      requires tpos != [] && tpos[|tpos| - 1] < |tstack| && tstack[tpos[|tpos| - 1]].Fields?
      modifies this
      ensures tpos == old(tpos[..|tpos| - 1])
      ensures var p := old(tpos[|tpos| - 1]);
              tstack == old(tstack)[p := Text("{" + J.Join(FieldTexts(old(tstack[p].fields))) + "}")]
    {
      var p := tpos[|tpos| - 1];
      tpos := tpos[..|tpos| - 1];
      var str := JoinFields(tstack[p].fields);
      tstack := tstack[p := Text("{" + str + "}")];
    }

    static method JoinFields(fields: seq<(string, string)>) returns (str: string)
      ensures str == J.Join(FieldTexts(fields))
    {
      ghost var texts := FieldTexts(fields);
      var first := true;
      str := "";
      for i := 0 to |fields|
        invariant first == (i == 0) && str == J.Join(texts[..i])
      {
        J.JoinSnoc(texts[..i], texts[i]);
        assert texts[..i + 1] == texts[..i] + [texts[i]];
        if first {
          first := false;
        } else {
          str := str + ",";
        }
        str := str + (fields[i].0 + ":" + fields[i].1);
      }
      assert texts[..|fields|] == texts;
    }

    method WriteFieldBegin(fieldType: TType, fieldId: int)
      modifies this
      ensures tstack == old(tstack) + [FieldInfo("\"" + J.Numeral(fieldId) + "\"", J.Quote(TypeName(fieldType)))]
      ensures tpos == old(tpos) + [|old(tstack)|]
    {
      tpos := tpos + [|tstack|];
      tstack := tstack + [FieldInfo("\"" + J.Numeral(fieldId) + "\"", "\"" + TypeName(fieldType) + "\"")];
    }

    method WriteFieldEnd()
      requires tpos != [] && |tstack| >= 3
      requires tstack[|tstack| - 1].Text? && tstack[|tstack| - 2].FieldInfo? && tstack[|tstack| - 3].Fields?
      modifies this
      ensures tpos == old(tpos[..|tpos| - 1])
      ensures var n := |old(tstack)|;
              var value, info, fields := old(tstack)[n - 1].text, old(tstack)[n - 2], old(tstack)[n - 3].fields;
              tstack == old(tstack)[..n - 3]
                  + [Fields(SetField(fields, info.fieldId, "{" + info.fieldType + ":" + value + "}"))]
    {
      var value := tstack[|tstack| - 1].text;
      tstack := tstack[..|tstack| - 1];
      var fieldInfo := tstack[|tstack| - 1];
      tstack := tstack[..|tstack| - 1];
      var top := |tstack| - 1;
      tstack := tstack[top := Fields(SetField(tstack[top].fields, fieldInfo.fieldId,
                                              "{" + fieldInfo.fieldType + ":" + value + "}"))];
      tpos := tpos[..|tpos| - 1];
    }

    // The size is not known to be right: it is set at the end.
    method WriteMapBegin(keyType: TType, valType: TType)
      modifies this
      ensures tstack == old(tstack) + [Parts([J.Quote(TypeName(keyType)), J.Quote(TypeName(valType)), "0"])]
      ensures tpos == old(tpos) + [|old(tstack)|]
    {
      tpos := tpos + [|tstack|];
      tstack := tstack + [Parts(["\"" + TypeName(keyType) + "\"", "\"" + TypeName(valType) + "\"", "0"])];
    }

    // The entries above the array that began last are keys and values.
    method WriteMapEnd(ghost below: seq<Entry>, ghost entries: seq<Entry>)
      requires tpos != [] && tstack == below + entries && |below| == tpos[|tpos| - 1] + 1 && AllText(entries)
      requires var p := tpos[|tpos| - 1]; below[p].Parts? && below[p].parts != []
      modifies this
      ensures tpos == old(tpos[..|tpos| - 1])
      ensures var p := old(tpos[|tpos| - 1]); tstack == below[..p] + [Text(MapText(below[p].parts, Texts(entries)))]
    {
      var p := tpos[|tpos| - 1];
      tpos := tpos[..|tpos| - 1];
      FinishMap(p, below, entries);
    }

    // The map that began at p, the top entry below its keys and values.
    method FinishMap(p: nat, ghost below: seq<Entry>, ghost entries: seq<Entry>)
      requires tstack == below + entries && |below| == p + 1 && AllText(entries)
      requires below[p].Parts? && below[p].parts != []
      modifies `tstack
      ensures tstack == below[..p] + [Text(MapText(below[p].parts, Texts(entries)))]
    {
      var parts := tstack[p].parts;
      ghost var entries', n := FillUp(p, below, entries);
      var size := (|tstack| - p - 1) / 2;
      assert size == n;
      var map_ := PopPairs(p, below, entries', n);
      Braces(J.Join(PairTexts(Texts(entries))));
      parts := parts[..|parts| - 1] + [J.Decimal(size)] + ["{" + map_];
      Close(parts);
    }

    static lemma {:induction false} Braces(text: string)
      ensures "{" + (text + "}") == "{" + text + "}"
    {
    }

    // The array that began at the top of the stack is finished.
    method Close(parts: seq<string>)
      requires tstack != []
      modifies `tstack
      ensures tstack == old(tstack)[..|old(tstack)| - 1] + [Text("[" + J.Join(parts) + "]")]
    {
      tstack := tstack[|tstack| - 1 := Text("[" + J.Join(parts) + "]")];
    }

    // A key that was written without a value gets an empty one.
    method FillUp(p: nat, ghost below: seq<Entry>, ghost entries: seq<Entry>)
      returns (ghost entries': seq<Entry>, ghost n: nat)
      requires tstack == below + entries && |below| == p + 1 && AllText(entries)
      modifies `tstack
      ensures tstack == below + entries' && AllText(entries') && |entries'| == 2 * n && n == (|entries| + 1) / 2
      ensures PairTexts(Texts(entries')) == PairTexts(Texts(entries))
    {
      entries', n := entries, (|entries| + 1) / 2;
      if (|tstack| - p - 1) % 2 != 0 {
        OddPairs(Texts(entries));
        tstack := tstack + [Text("")];
        entries' := entries + [Text("")];
        assert Texts(entries') == Texts(entries) + [""];
      }
    }

    method PopText() returns (text: string)
      requires tstack != [] && tstack[|tstack| - 1].Text?
      modifies `tstack
      ensures text == old(tstack)[|old(tstack)| - 1].text && tstack == old(tstack)[..|old(tstack)| - 1]
    {
      text := tstack[|tstack| - 1].text;
      tstack := tstack[..|tstack| - 1];
    }

    method PopPairs(p: nat, ghost below: seq<Entry>, ghost entries: seq<Entry>, ghost n: nat) returns (map_: string)
      requires tstack == below + entries && |below| == p + 1 && AllText(entries) && |entries| == 2 * n
      modifies `tstack
      ensures tstack == below
      ensures map_ == J.Join(PairTexts(Texts(entries))) + "}"
    {
      map_ := "}";
      var first := true;
      ghost var left, put, pairs := entries, [], n;
      while |tstack| > p + 1
        invariant tstack == below + left && |left| == 2 * pairs && Put(entries, left, put, first, map_)
        decreases |tstack|
      {
        map_ := PopNext(below, entries, left, put, first, map_);
        first := false;
        left, put, pairs := left[..|left| - 2], left[|left| - 2..] + put, pairs - 1;
      }
      assert put == entries;
    }

    // The entries are some, and behind them others.
    static ghost predicate Parted(entries: seq<Entry>, front: seq<Entry>, back: seq<Entry>) {
      && |front| + |back| == |entries|
      && (forall i :: 0 <= i < |front| ==> front[i] == entries[i])
      && (forall i :: |front| <= i < |entries| ==> back[i - |front|] == entries[i])
    }

    // The last of the entries have been put together.
    static ghost predicate Put(entries: seq<Entry>, left: seq<Entry>, put: seq<Entry>, first: bool, map_: string) {
      AllText(left) && AllText(put) && Parted(entries, left, put) && PairsPut(put, first, map_)
    }

    // The text that has been put together of the last entries.
    static ghost predicate PairsPut(put: seq<Entry>, first: bool, map_: string)
      requires AllText(put)
    {
      first == (put == []) && map_ == J.Join(PairTexts(Texts(put))) + "}"
    }

    method PopNext(ghost below: seq<Entry>, ghost entries: seq<Entry>, ghost left: seq<Entry>, ghost put: seq<Entry>,
                   first: bool, map_: string)
      returns (map': string)
      requires tstack == below + left && |left| >= 2 && Put(entries, left, put, first, map_)
      modifies `tstack
      ensures tstack == below + left[..|left| - 2]
      ensures Put(entries, left[..|left| - 2], left[|left| - 2..] + put, false, map')
    {
      ghost var k, v := left[|left| - 2], left[|left| - 1];
      assert tstack[|tstack| - 1] == v && tstack[|tstack| - 2] == k;
      map' := PopPair(first, map_);
      NextPut(entries, left, put, first, map_);
    }

    static lemma {:induction false} NextPut(entries: seq<Entry>, left: seq<Entry>, put: seq<Entry>, first: bool,
                                            map_: string)
      requires |left| >= 2 && Put(entries, left, put, first, map_)
      ensures var k, v := left[|left| - 2].text, left[|left| - 1].text;
              Put(entries, left[..|left| - 2], left[|left| - 2..] + put, false,
                  KeyText(k) + ":" + v + ((if first then "" else ",") + map_))
    {
      var k, v := left[|left| - 2], left[|left| - 1];
      assert left[|left| - 2..] == [k, v];
      PartNext(entries, left, put);
      NextPair(k.text, v.text, put, first, map_);
    }

    static lemma {:induction false} PartNext(entries: seq<Entry>, left: seq<Entry>, put: seq<Entry>)
      requires Parted(entries, left, put) && |left| >= 2
      ensures Parted(entries, left[..|left| - 2], left[|left| - 2..] + put)
    {
    }

    static lemma {:induction false} NextPair(k: string, v: string, put: seq<Entry>, first: bool, map_: string)
      requires AllText(put) && PairsPut(put, first, map_)
      ensures PairsPut([Text(k), Text(v)] + put, false, KeyText(k) + ":" + v + ((if first then "" else ",") + map_))
    {
      var pair, rest := KeyText(k) + ":" + v, PairTexts(Texts(put));
      TwoTexts(k, v, put);
      NoPairs(Texts(put));
      J.JoinCons(pair, rest);
      Closed(pair, J.Join(rest));
    }

    static lemma {:induction false} NoPairs(texts: seq<string>)
      ensures PairTexts(texts) == [] <==> texts == []
    {
    }

    static lemma {:induction false} Closed(a: string, b: string)
      ensures a + "" + "}" == a + ("" + ("" + "}")) && a + ("," + b) + "}" == a + ("," + (b + "}"))
    {
    }

    method PopPair(first: bool, map_: string) returns (map': string)
      requires |tstack| >= 2 && tstack[|tstack| - 1].Text? && tstack[|tstack| - 2].Text?
      modifies `tstack
      ensures tstack == old(tstack)[..|old(tstack)| - 2]
      ensures var n := |old(tstack)|;
              map' == KeyText(old(tstack)[n - 2].text) + ":" + old(tstack)[n - 1].text
                  + ((if first then "" else ",") + map_)
    {
      var v := PopText();
      var k := PopText();
      map' := if first then map_ else "," + map_;
      if !IsNaN(k) {
        k := "\"" + k + "\"";
      }
      map' := k + ":" + v + map';
    }

    // An empty value for the last key changes nothing.
    static lemma {:induction false} OddPairs(texts: seq<string>)
      requires |texts| % 2 == 1
      ensures PairTexts(texts + [""]) == PairTexts(texts)
    {
      if |texts| > 1 {
        OddPairs(texts[2..]);
        assert (texts + [""])[2..] == texts[2..] + [""];
      } else {
        assert (texts + [""])[2..] == [] && KeyText(texts[0]) + ":" + "" == KeyText(texts[0]) + ":";
      }
    }

    method WriteListBegin(elemType: TType, size: nat)
      modifies this
      ensures tstack == old(tstack) + [Parts([J.Quote(TypeName(elemType)), J.Decimal(size)])]
      ensures tpos == old(tpos) + [|old(tstack)|]
    {
      tpos := tpos + [|tstack|];
      tstack := tstack + [Parts(["\"" + TypeName(elemType) + "\"", J.Decimal(size)])];
    }

    // The entries above the array that began last are its elements.
    method WriteListEnd(ghost below: seq<Entry>, ghost entries: seq<Entry>)
      requires tpos != [] && tstack == below + entries && |below| == tpos[|tpos| - 1] + 1 && AllText(entries)
      requires below[tpos[|tpos| - 1]].Parts?
      modifies this
      ensures tpos == old(tpos[..|tpos| - 1])
      ensures var p := old(tpos[|tpos| - 1]);
              tstack == below[..p] + [Text("[" + J.Join(below[p].parts + Texts(entries)) + "]")]
    {
      var p := tpos[|tpos| - 1];
      tpos := tpos[..|tpos| - 1];
      var parts := TakeElements(p, below, entries);
      Close(parts);
    }

    method TakeElements(p: nat, ghost below: seq<Entry>, ghost entries: seq<Entry>) returns (parts: seq<string>)
      requires tstack == below + entries && |below| == p + 1 && AllText(entries) && below[p].Parts?
      modifies `tstack
      ensures tstack == below
      ensures parts == below[p].parts + Texts(entries)
    {
      parts := tstack[p].parts;
      ghost var left, taken := entries, [];
      while |tstack| > p + 1
        invariant tstack == below + left && AllText(left) && AllText(taken) && Parted(entries, taken, left)
        invariant parts == below[p].parts + Texts(taken)
        decreases |tstack|
      {
        ghost var first := left[0];
        assert tstack[p + 1] == first;
        SpliceOut(below, left);
        TextsSnoc(taken, first);
        TakeNext(entries, taken, left);
        var tmpVal := tstack[p + 1].text;
        tstack := tstack[..p + 1] + tstack[p + 2..];
        parts := parts + [tmpVal];
        left, taken := left[1..], taken + [first];
      }
      assert taken == entries;
    }

    static lemma {:induction false} SpliceOut(below: seq<Entry>, left: seq<Entry>)
      requires left != []
      ensures (below + left)[..|below|] + (below + left)[|below| + 1..] == below + left[1..]
    {
    }

    static lemma {:induction false} TextsSnoc(entries: seq<Entry>, entry: Entry)
      requires AllText(entries) && entry.Text?
      ensures Texts(entries + [entry]) == Texts(entries) + [entry.text]
    {
    }

    static lemma {:induction false} TakeNext(entries: seq<Entry>, taken: seq<Entry>, left: seq<Entry>)
      requires Parted(entries, taken, left) && left != []
      ensures Parted(entries, taken + [left[0]], left[1..])
    {
      assert left[0] == entries[|taken|];
      forall i | |taken| + 1 <= i < |entries|
        ensures left[1..][i - |taken| - 1] == entries[i]
      {
        assert left[i - |taken|] == entries[i];
      }
    }

    method WriteBool(value: bool)
      modifies `tstack
      ensures tstack == old(tstack) + [Text(if value then "1" else "0")]
    {
      tstack := tstack + [Text(if value then "1" else "0")];
    }

    // writeByte, writeI16, writeI32, writeI64 and writeDouble
    method WriteNumber(number: string)
      modifies `tstack
      ensures tstack == old(tstack) + [Text(number)]
    {
      tstack := tstack + [Text(number)];
    }

    method WriteString(str: string)
      modifies `tstack
      ensures tstack == old(tstack) + [Text(J.Quote(str))]
    {
      var escapedString := EscapeAll(str);
      tstack := tstack + [Text("\"" + escapedString + "\"")];
    }

    // Its loop.
    static method EscapeAll(str: string) returns (escapedString: string)
      ensures escapedString == J.Escape(str)
    {
      escapedString := "";
      for i := 0 to |str|
        invariant escapedString + J.Escape(str[i..]) == J.Escape(str)
      {
        var ch, piece := str[i], "";
        if ch == '\"' {
          piece := "\\\"";
        } else if ch == '\\' {
          piece := "\\\\";
        } else if ch == J.BACKSPACE {
          piece := "\\b";
        } else if ch == J.FORMFEED {
          piece := "\\f";
        } else if ch == '\n' {
          piece := "\\n";
        } else if ch == '\r' {
          piece := "\\r";
        } else if ch == '\t' {
          piece := "\\t";
        } else {
          piece := [ch];
        }
        EscapeStep(str, i, escapedString, piece);
        escapedString := escapedString + piece;
      }
    }

    static lemma {:induction false} EscapeStep(str: string, i: nat, done: string, piece: string)
      requires i < |str| && piece == J.Escaped(str[i])
      ensures done + J.Escape(str[i..]) == done + piece + J.Escape(str[i + 1..])
    {
      assert str[i..][1..] == str[i + 1..];
    }
  }
}
