// The calls by which the code generated for structs (thrift/compiler/cpp/src/generate/t_js_generator.cc)
// writes a value with the JavaScript protocol: each leaves the text of the value's tree on the stack.
module JsonStructs {
  import opened Wire
  import opened JsonWriter
  import J = Json

  // Booleans are 0 or 1, and numbers what JavaScript writes for them.
  predicate NumeralOk(kind: Kind, payload: string) {
    match kind
    case STRING => true
    case BOOL => payload == "0" || payload == "1"
    case _ => J.NumberWritten(payload)
  }

  // No key is NaN.
  predicate KeyOk(key: Value) {
    key.Atom? ==> NumeralOk(key.kind, key.payload) && (key.kind == STRING || key.payload != "NaN")
  }

  // In all that is written.
  ghost predicate NumbersOk(v: Value) {
    match v
    case Null => true
    case Atom(kind, payload) => NumeralOk(kind, payload)
    case Object(_, vars) => forall i :: 0 <= i < |vars| ==> Falsy(vars[i]) || NumbersOk(vars[i])
    case Pairs(pairs) => forall i :: 0 <= i < |pairs| ==> KeyOk(pairs[i].0) && NumbersOk(pairs[i].1)
    case Items(items) => forall i :: 0 <= i < |items| ==> NumbersOk(items[i])
  }

  // Thrift.objectLength, as the loop over a map's keys, asks the map itself whether they are its own.
  const OWN := Atom(STRING, "hasOwnProperty")

  predicate CanBeAsked(v: Value)
    requires v.Pairs?
  {
    forall i :: 0 <= i < |v.pairs| ==> v.pairs[i].0 != OWN
  }

  // Whether all that is written is written, and nothing throws because a map cannot be asked.
  ghost predicate Writes(v: Value) {
    match v
    case Null => true
    case Atom(_, _) => true
    case Object(_, vars) => forall i :: 0 <= i < |vars| ==> Falsy(vars[i]) || Writes(vars[i])
    case Pairs(pairs) => CanBeAsked(v) && forall i :: 0 <= i < |pairs| ==> Writes(pairs[i].1)
    case Items(items) => forall i :: 0 <= i < |items| ==> Writes(items[i])
  }

  // A map with that key is not written, nor is anything it is part of.
  lemma {:induction false} OwnNameThrows(x: Value, cls: string, before: seq<Value>, after: seq<Value>)
    ensures !Writes(Object(cls, before + [Pairs([(Atom(STRING, "hasOwnProperty"), x)])] + after))
  {
    var v, map_ := Object(cls, before + [Pairs([(OWN, x)])] + after), Pairs([(OWN, x)]);
    assert v.vars[|before|] == map_ && map_.pairs[0].0 == OWN;
  }

  // Each of these methods is false where the code throws.
  method WriteValue(C: Classes, t: Type, v: Value, w: Writer) returns (ok: bool)
    requires WellTyped(C, t, v) && NumbersOk(v) && UniqueIds(C)
    modifies w
    ensures ok <==> Writes(v)
    ensures ok ==> w.tpos == old(w.tpos) && w.tstack == old(w.tstack) + [Text(J.Print(Tree(C, t, v, true)))]
    decreases v, 2
  {
    ok := true;
    match t {
      case Scalar(kind) =>
        match kind {
          case STRING => w.WriteString(v.payload);
          case BOOL => w.WriteBool(v.payload == "1");
          case _ => w.WriteNumber(v.payload);
        }
      case Struct(_) => ok := WriteStruct(C, v, w);
      case Map(key, val) => ok := WriteMap(C, key, val, v, w);
      case List(elem) => ok := WriteList(C, elem, false, v, w);
      case Set(elem) => ok := WriteList(C, elem, true, v, w);
    }
  }

  // ---------------------------------------------------------------------------
  // Structs
  // ---------------------------------------------------------------------------

  // A struct's finished fields on the stack.
  function TextFields(members: seq<J.Member>): seq<(string, string)> {
    seq(|members|, i requires 0 <= i < |members| => (J.Quote(members[i].name), J.Print(members[i].value)))
  }

  lemma {:induction false} QuotedNumeral(n: int)
    ensures J.Quote(J.Numeral(n)) == "\"" + J.Numeral(n) + "\""
  {
    J.EscapePlain(J.Numeral(n));
  }

  lemma {:induction false} DifferentNumerals(m: int, n: int)
    requires m != n
    ensures J.Quote(J.Numeral(m)) != J.Quote(J.Numeral(n))
  {
    QuotedNumeral(m);
    QuotedNumeral(n);
    J.ParseNumeral(m);
    J.ParseNumeral(n);
    assert Unquoted(J.Quote(J.Numeral(m))) == J.Numeral(m) && Unquoted(J.Quote(J.Numeral(n))) == J.Numeral(n);
  }

  function Unquoted(s: string): string
    requires |s| >= 2
  {
    s[1..|s| - 1]
  }

  lemma {:induction false} SetNewField(fields: seq<(string, string)>, key: string, text: string)
    requires forall k :: 0 <= k < |fields| ==> fields[k].0 != key
    ensures SetField(fields, key, text) == fields + [(key, text)]
  {
    if fields != [] {
      SetNewField(fields[1..], key, text);
    }
  }

  method WriteStruct(C: Classes, v: Value, w: Writer) returns (ok: bool)
    requires v.Object? && WellTyped(C, Struct(v.cls), v) && NumbersOk(v) && UniqueIds(C)
    modifies w
    ensures ok <==> Writes(v)
    ensures ok ==> w.tpos == old(w.tpos) && w.tstack == old(w.tstack) + [Text(J.Print(Tree(C, Struct(v.cls), v, true)))]
    decreases v, 1
  {
    w.WriteStructBegin();
    ghost var base := old(w.tstack);
    ok := WriteVars(C, v, w, base);
    if ok {
      w.WriteStructEnd();
      StructText(Members(C, v, true, 0));
    }
  }

  lemma {:induction false} NoMember(C: Classes, v: Value, written: bool, i: nat)
    requires v.Object? && v.cls in C && |C[v.cls]| == |v.vars| && i < |v.vars| && Falsy(v.vars[i])
    ensures Members(C, v, written, i) == Members(C, v, written, i + 1)
  {
  }

  lemma {:induction false} NextMember(C: Classes, v: Value, i: nat, done: seq<J.Member>)
    requires v.Object? && v.cls in C && |C[v.cls]| == |v.vars| && i < |v.vars| && !Falsy(v.vars[i])
    ensures done + [FieldMember(C, C[v.cls][i], v.vars[i], true)] + Members(C, v, true, i + 1)
            == done + Members(C, v, true, i)
  {
  }

  method WriteVars(C: Classes, v: Value, w: Writer, ghost base: seq<Entry>) returns (ok: bool)
    requires v.Object? && WellTyped(C, Struct(v.cls), v) && NumbersOk(v) && UniqueIds(C)
    requires w.tstack == base + [Fields([])]
    modifies w
    ensures ok <==> Writes(v)
    ensures ok ==> w.tpos == old(w.tpos) && w.tstack == base + [Fields(TextFields(Members(C, v, true, 0)))]
    decreases v, 0, 2
  {
    ghost var done: seq<J.Member> := [];
    assert TextFields(done) == [];
    for i := 0 to |v.vars|
      invariant w.tpos == old(w.tpos) && w.tstack == base + [Fields(TextFields(done))] && Begun(C, v, done, i)
      invariant forall k :: 0 <= k < i ==> Falsy(v.vars[k]) || Writes(v.vars[k])
    {
      ok, done := WriteVar(C, v, i, w, base, done);
      if !ok {
        return;
      }
    }
    ok := true;
    AllMembers(C, v, done);
  }

  // The members of the vars before i are done.
  ghost predicate Begun(C: Classes, v: Value, done: seq<J.Member>, i: nat)
    requires v.Object? && v.cls in C
  {
    done + Members(C, v, true, i) == Members(C, v, true, 0) && NamedBefore(C[v.cls], done, i)
  }

  // A field that is false in JavaScript is left out.
  method WriteVar(C: Classes, v: Value, i: nat, w: Writer, ghost base: seq<Entry>, ghost done: seq<J.Member>)
    returns (ok: bool, ghost done': seq<J.Member>)
    requires v.Object? && WellTyped(C, Struct(v.cls), v) && NumbersOk(v) && UniqueIds(C)
    requires i < |v.vars| && Begun(C, v, done, i) && w.tstack == base + [Fields(TextFields(done))]
    modifies w
    ensures ok <==> Falsy(v.vars[i]) || Writes(v.vars[i])
    ensures ok ==>
              w.tpos == old(w.tpos) && w.tstack == base + [Fields(TextFields(done'))] && Begun(C, v, done', i + 1)
    decreases v, 0, 1
  {
    ok, done' := true, done;
    if !Falsy(v.vars[i]) {
      NextMember(C, v, i, done);
      ok := WriteField(C, v, i, w, base, done);
      done' := done + [FieldMember(C, C[v.cls][i], v.vars[i], true)];
    } else {
      NoMember(C, v, true, i);
    }
  }

  lemma {:induction false} AllMembers(C: Classes, v: Value, done: seq<J.Member>)
    requires v.Object? && done + Members(C, v, true, |v.vars|) == Members(C, v, true, 0)
    ensures done == Members(C, v, true, 0)
  {
    assert done + [] == done;
  }

  lemma {:induction false} StructText(members: seq<J.Member>)
    ensures "{" + J.Join(FieldTexts(TextFields(members))) + "}" == J.Print(J.Obj(members))
  {
    assert FieldTexts(TextFields(members)) == J.MemberTexts(members);
    J.JoinMembers(members);
  }

  // The names of the members are ids of fields before i.
  ghost predicate NamedBefore(fields: seq<Field>, members: seq<J.Member>, i: nat) {
    forall k :: 0 <= k < |members| ==>
      exists j :: 0 <= j < i && j < |fields| && members[k].name == J.Numeral(fields[j].fid)
  }

  // So the next id is not the name of a member.
  lemma {:induction false} NewName(fields: seq<Field>, members: seq<J.Member>, i: nat, k: nat)
    requires DistinctIds(fields) && i < |fields| && NamedBefore(fields, members, i) && k < |members|
    ensures TextFields(members)[k].0 != J.Quote(J.Numeral(fields[i].fid))
  {
    var name := members[k].name;
    var j :| 0 <= j < i && j < |fields| && name == J.Numeral(fields[j].fid);
    DifferentNumerals(fields[j].fid, fields[i].fid);
  }

  // A field, written behind those before it.
  method WriteField(C: Classes, v: Value, i: nat, w: Writer, ghost base: seq<Entry>, ghost done: seq<J.Member>)
    returns (ok: bool)
    requires v.Object? && WellTyped(C, Struct(v.cls), v) && NumbersOk(v) && UniqueIds(C)
    requires i < |v.vars| && !Falsy(v.vars[i]) && NamedBefore(C[v.cls], done, i)
    requires w.tstack == base + [Fields(TextFields(done))]
    modifies w
    ensures ok <==> Writes(v.vars[i])
    ensures ok ==>
              && w.tpos == old(w.tpos)
              && w.tstack == base + [Fields(TextFields(done + [FieldMember(C, C[v.cls][i], v.vars[i], true)]))]
    decreases v, 0, 0
  {
    var field := C[v.cls][i];
    w.WriteFieldBegin(Tag(field.typ), field.fid);
    ok := WriteValue(C, field.typ, v.vars[i], w);
    if !ok {
      return;
    }
    w.WriteFieldEnd();
    QuotedNumeral(field.fid);
    ghost var key, tree := J.Quote(J.Numeral(field.fid)), Tree(C, field.typ, v.vars[i], true);
    ghost var text := "{" + J.Quote(TypeName(Tag(field.typ))) + ":" + J.Print(tree) + "}";
    assert w.tstack == base + [Fields(SetField(TextFields(done), key, text))];
    forall k | 0 <= k < |done| ensures TextFields(done)[k].0 != key {
      NewName(C[v.cls], done, i, k);
    }
    SetNewField(TextFields(done), key, text);
    FieldText(Tag(field.typ), tree);
    MemberField(done, FieldMember(C, field, v.vars[i], true), key, text);
  }

  lemma {:induction false} MemberField(done: seq<J.Member>, member: J.Member, key: string, text: string)
    requires key == J.Quote(member.name) && text == J.Print(member.value)
    ensures TextFields(done + [member]) == TextFields(done) + [(key, text)]
  {
  }

  lemma {:induction false} FieldText(tag: TType, tree: J.Json)
    ensures J.Print(J.Obj([J.Member(TypeName(tag), tree)])) == "{" + J.Quote(TypeName(tag)) + ":" + J.Print(tree) + "}"
  {
    OneMember(J.Member(TypeName(tag), tree));
    Braced(J.Quote(TypeName(tag)), J.Print(tree));
  }

  lemma {:induction false} OneMember(member: J.Member)
    ensures J.PrintMembers([member]) == J.PrintMember(member)
  {
  }

  lemma {:induction false} Braced(key: string, text: string)
    ensures "{" + key + ":" + text + "}" == "{" + (key + ":" + text) + "}"
  {
  }

  // ---------------------------------------------------------------------------
  // Maps
  // ---------------------------------------------------------------------------

  // The texts of the keys and values of a map, from pair i on.
  ghost function Flat(C: Classes, key: Type, val: Type, v: Value, i: nat): (entries: seq<Entry>)
    requires v.Pairs?
    ensures i <= |v.pairs| ==> |entries| == 2 * (|v.pairs| - i)
    ensures AllText(entries)
    decreases |v.pairs| - i
  {
    if |v.pairs| <= i then []
    else [Text(KeyWritten(v.pairs[i].0)), Text(J.Print(Tree(C, val, v.pairs[i].1, true)))] + Flat(C, key, val, v, i + 1)
  }

  method WriteMap(C: Classes, key: Type, val: Type, v: Value, w: Writer) returns (ok: bool)
    requires WellTyped(C, Map(key, val), v) && NumbersOk(v) && UniqueIds(C)
    modifies w
    ensures ok <==> Writes(v)
    ensures ok ==>
              w.tpos == old(w.tpos) && w.tstack == old(w.tstack) + [Text(J.Print(Tree(C, Map(key, val), v, true)))]
    decreases v, 1
  {
    if !CanBeAsked(v) {
      return false;
    }
    w.WriteMapBegin(Tag(key), Tag(val));
    ghost var begun := w.tstack;
    ok := WritePairs(C, key, val, v, w);
    if ok {
      w.WriteMapEnd(begun, Flat(C, key, val, v, 0));
      MapTreeText(C, key, val, v);
    }
  }

  method WritePairs(C: Classes, key: Type, val: Type, v: Value, w: Writer) returns (ok: bool)
    requires WellTyped(C, Map(key, val), v) && NumbersOk(v) && UniqueIds(C) && CanBeAsked(v)
    modifies w
    ensures ok <==> Writes(v)
    ensures ok ==> w.tpos == old(w.tpos) && w.tstack == old(w.tstack) + Flat(C, key, val, v, 0)
    decreases v, 0
  {
    ghost var all := w.tstack + Flat(C, key, val, v, 0);
    for i := 0 to |v.pairs|
      invariant w.tpos == old(w.tpos) && w.tstack + Flat(C, key, val, v, i) == all
      invariant forall k :: 0 <= k < i ==> Writes(v.pairs[k].1)
    {
      FlatStep(C, key, val, v, i, w.tstack);
      WriteKey(v.pairs[i].0, w);
      ok := WriteValue(C, val, v.pairs[i].1, w);
      if !ok {
        return;
      }
    }
    ok := true;
    assert w.tstack + [] == w.tstack;
  }

  lemma {:induction false} FlatStep(C: Classes, key: Type, val: Type, v: Value, i: nat, before: seq<Entry>)
    requires v.Pairs? && i < |v.pairs|
    ensures before + [Text(KeyWritten(v.pairs[i].0))] + [Text(J.Print(Tree(C, val, v.pairs[i].1, true)))]
            + Flat(C, key, val, v, i + 1)
         == before + Flat(C, key, val, v, i)
  {
  }

  lemma {:induction false} MapTreeText(C: Classes, key: Type, val: Type, v: Value)
    requires WellTyped(C, Map(key, val), v) && NumbersOk(v)
    ensures J.Print(Tree(C, Map(key, val), v, true))
         == MapText([J.Quote(TypeName(Tag(key))), J.Quote(TypeName(Tag(val))), "0"], Texts(Flat(C, key, val, v, 0)))
  {
    var types := [J.Str(TypeName(Tag(key))), J.Str(TypeName(Tag(val)))];
    var entries := Entries(C, val, v, true, 0);
    PairsText(C, key, val, v, 0);
    MapTexts(types, |v.pairs|, entries, Texts(Flat(C, key, val, v, 0)));
    assert types + [J.Num(J.Decimal(|v.pairs|)), J.Obj(entries)] == Tree(C, Map(key, val), v, true).elems;
    assert J.ElemTexts(types) == [J.Quote(TypeName(Tag(key))), J.Quote(TypeName(Tag(val)))] by {
      assert J.Print(types[0]) == J.Quote(TypeName(Tag(key))) && J.Print(types[1]) == J.Quote(TypeName(Tag(val)));
    }
    assert J.ElemTexts(types) + ["0"] == [J.Quote(TypeName(Tag(key))), J.Quote(TypeName(Tag(val))), "0"];
  }

  lemma {:induction false} MapTexts(types: seq<J.Json>, size: nat, members: seq<J.Member>, texts: seq<string>)
    requires PairTexts(texts) == J.MemberTexts(members) && |texts| == 2 * size
    ensures J.Print(J.Arr(types + [J.Num(J.Decimal(size)), J.Obj(members)]))
            == MapText(J.ElemTexts(types) + ["0"], texts)
  {
    var elems := types + [J.Num(J.Decimal(size)), J.Obj(members)];
    J.JoinMembers(members);
    J.JoinElems(elems);
    assert J.ElemTexts(elems) == J.ElemTexts(types) + [J.Decimal(size)] + ["{" + J.Join(PairTexts(texts)) + "}"];
    assert (J.ElemTexts(types) + ["0"])[..|types|] == J.ElemTexts(types);
  }

  lemma {:induction false} PairsText(C: Classes, key: Type, val: Type, v: Value, i: nat)
    requires v.Pairs? && WellTyped(C, Map(key, val), v) && NumbersOk(v) && i <= |v.pairs|
    ensures PairTexts(Texts(Flat(C, key, val, v, i))) == J.MemberTexts(Entries(C, val, v, true, i))
    decreases |v.pairs| - i
  {
    if i < |v.pairs| {
      PairsText(C, key, val, v, i + 1);
      KeyIsQuoted(v.pairs[i].0);
      PairText(KeyWritten(v.pairs[i].0), J.Member(KeyName(v.pairs[i].0), Tree(C, val, v.pairs[i].1, true)),
               Flat(C, key, val, v, i + 1), Entries(C, val, v, true, i + 1));
    }
  }

  lemma {:induction false} PairText(key: string, member: J.Member, entries: seq<Entry>, members: seq<J.Member>)
    requires KeyText(key) == J.Quote(member.name) && AllText(entries)
             && PairTexts(Texts(entries)) == J.MemberTexts(members)
    ensures PairTexts(Texts([Text(key), Text(J.Print(member.value))] + entries)) == J.MemberTexts([member] + members)
  {
    TwoTexts(key, J.Print(member.value), entries);
    J.MemberTextsCons(member, members);
  }

  // What a key leaves on the stack.
  function KeyWritten(key: Value): string {
    if key.Atom? && key.kind == STRING then J.Quote(PropertyName(key)) else KeyName(key)
  }

  // The loop runs over the names of the properties.
  method WriteKey(key: Value, w: Writer)
    requires key.Atom?
    modifies w
    ensures w.tpos == old(w.tpos) && w.tstack == old(w.tstack) + [Text(KeyWritten(key))]
  {
    var name := PropertyName(key);
    match key.kind {
      case STRING => w.WriteString(name);
      case BOOL => w.WriteBool(name != "");
      case _ => w.WriteNumber(name);
    }
  }

  // Whatever its kind, a key ends up quoted once.
  lemma {:induction false} KeyIsQuoted(key: Value)
    requires key.Atom? && KeyOk(key)
    ensures KeyText(KeyWritten(key)) == J.Quote(KeyName(key))
  {
    if key.kind == STRING {
      var k := KeyWritten(key);
      assert k[0] == '\"';
      if J.NumberText(k) {
        J.NumberChars(k);
      }
    } else if key.kind == BOOL {
      J.DecimalIsNumber(1);
      assert J.Decimal(1) == "1";
      NumberIsQuoted("1");
    } else {
      NumberIsQuoted(key.payload);
    }
  }

  lemma {:induction false} NumberIsQuoted(k: string)
    requires J.NumberWritten(k) && k != "NaN"
    ensures KeyText(k) == J.Quote(k)
  {
    if J.NumberText(k) {
      J.NumberChars(k);
    }
    J.EscapePlain(k);
  }

  // ---------------------------------------------------------------------------
  // Lists and sets
  // ---------------------------------------------------------------------------

  // The texts of a list's elements, from element i on.
  ghost function FlatItems(C: Classes, elem: Type, v: Value, i: nat): (entries: seq<Entry>)
    requires v.Items?
    ensures AllText(entries)
    decreases |v.items| - i
  {
    if |v.items| <= i then [] else [Text(J.Print(Tree(C, elem, v.items[i], true)))] + FlatItems(C, elem, v, i + 1)
  }

  method WriteList(C: Classes, elem: Type, set_: bool, v: Value, w: Writer) returns (ok: bool)
    requires WellTyped(C, ListType(elem, set_), v) && NumbersOk(v) && UniqueIds(C)
    modifies w
    ensures ok <==> Writes(v)
    ensures ok ==>
              && w.tpos == old(w.tpos)
              && w.tstack == old(w.tstack) + [Text(J.Print(Tree(C, ListType(elem, set_), v, true)))]
    decreases v, 1
  {
    w.WriteListBegin(Tag(elem), |v.items|);
    ghost var begun := w.tstack;
    ok := WriteElements(C, elem, v, w);
    if ok {
      w.WriteListEnd(begun, FlatItems(C, elem, v, 0));
      ListText(C, elem, set_, v);
    }
  }

  method WriteElements(C: Classes, elem: Type, v: Value, w: Writer) returns (ok: bool)
    requires WellTyped(C, List(elem), v) && NumbersOk(v) && UniqueIds(C)
    modifies w
    ensures ok <==> Writes(v)
    ensures ok ==> w.tpos == old(w.tpos) && w.tstack == old(w.tstack) + FlatItems(C, elem, v, 0)
    decreases v, 0
  {
    ghost var all := w.tstack + FlatItems(C, elem, v, 0);
    for i := 0 to |v.items|
      invariant w.tpos == old(w.tpos) && w.tstack + FlatItems(C, elem, v, i) == all
      invariant forall k :: 0 <= k < i ==> Writes(v.items[k])
    {
      FlatItemsStep(C, elem, v, i, w.tstack);
      ok := WriteValue(C, elem, v.items[i], w);
      if !ok {
        return;
      }
    }
    ok := true;
    assert w.tstack + [] == w.tstack;
  }

  lemma {:induction false} FlatItemsStep(C: Classes, elem: Type, v: Value, i: nat, before: seq<Entry>)
    requires v.Items? && i < |v.items|
    ensures before + [Text(J.Print(Tree(C, elem, v.items[i], true)))] + FlatItems(C, elem, v, i + 1)
            == before + FlatItems(C, elem, v, i)
  {
  }

  lemma {:induction false} ListText(C: Classes, elem: Type, set_: bool, v: Value)
    requires WellTyped(C, ListType(elem, set_), v)
    ensures J.Print(Tree(C, ListType(elem, set_), v, true))
         == "[" + J.Join([J.Quote(TypeName(Tag(elem))), J.Decimal(|v.items|)] + Texts(FlatItems(C, elem, v, 0))) + "]"
  {
    var head, elems := [J.Str(TypeName(Tag(elem))), J.Num(J.Decimal(|v.items|))], Elements(C, elem, v, true, 0);
    ItemTexts(C, elem, v, 0);
    HeadedText(head[0], head[1], elems);
  }

  lemma {:induction false} HeadedText(a: J.Json, b: J.Json, elems: seq<J.Json>)
    ensures J.Print(J.Arr([a, b] + elems)) == "[" + J.Join([J.Print(a), J.Print(b)] + J.ElemTexts(elems)) + "]"
  {
    J.JoinElems([a, b] + elems);
    assert J.ElemTexts([a, b] + elems) == [J.Print(a), J.Print(b)] + J.ElemTexts(elems);
  }

  lemma {:induction false} ItemTexts(C: Classes, elem: Type, v: Value, i: nat)
    requires v.Items?
    ensures Texts(FlatItems(C, elem, v, i)) == J.ElemTexts(Elements(C, elem, v, true, i))
    decreases |v.items| - i
  {
    if i < |v.items| {
      ItemTexts(C, elem, v, i + 1);
      ItemText(Tree(C, elem, v.items[i], true), FlatItems(C, elem, v, i + 1), Elements(C, elem, v, true, i + 1));
    }
  }

  lemma {:induction false} ItemText(tree: J.Json, entries: seq<Entry>, elems: seq<J.Json>)
    requires AllText(entries) && Texts(entries) == J.ElemTexts(elems)
    ensures Texts([Text(J.Print(tree))] + entries) == J.ElemTexts([tree] + elems)
  {
    assert J.ElemTexts([tree] + elems) == [J.Print(tree)] + J.ElemTexts(elems);
    assert Texts([Text(J.Print(tree))] + entries) == [J.Print(tree)] + Texts(entries);
  }
}
