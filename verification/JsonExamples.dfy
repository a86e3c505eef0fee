// Texts as they are on the wire with the JavaScript protocol.
module JsonExamples {
  import opened Wire
  import opened JsonWriter
  import J = Json

  // The seven characters that writeString escapes, as section 7 of RFC 8259 has it; JSON reads them back.
  lemma {:induction false} KnownEscapes()
    ensures J.Escaped(8 as char) == "\\b" && J.Escaped(12 as char) == "\\f"
    ensures J.Escaped('\n') == "\\n" && J.Escaped('\r') == "\\r" && J.Escaped('\t') == "\\t"
    ensures J.Escaped('\"') == "\\\"" && J.Escaped('\\') == "\\\\"
    ensures forall c: char :: c as int !in {8, 9, 10, 12, 13, 34, 92} ==> J.Escaped(c) == [c]
  {
  }

  // What is read of a backslash and a character behind it.
  lemma {:induction false} KnownSequences(c: char, rest: string)
    requires J.ParseChars(rest).Done?
    ensures var read := J.ParseChars(['\\', c] + rest);
            var more := J.ParseChars(rest);
            if c == 'b' then read == J.Done([8 as char] + more.value, more.rest)
            else if c == 'f' then read == J.Done([12 as char] + more.value, more.rest)
            else if c == 'n' then read == J.Done("\n" + more.value, more.rest)
            else if c == 'r' then read == J.Done("\r" + more.value, more.rest)
            else if c == 't' then read == J.Done("\t" + more.value, more.rest)
            else if c == '\"' || c == '\\' || c == '/' then read == J.Done([c] + more.value, more.rest)
            else read == J.Failed
  {
    var s := ['\\', c] + rest;
    assert s[0] == '\\' && s[1] == c && s[2..] == rest;
  }

  // A field as it is written: its id, and its value under the name of its type.
  function FieldText(id: string, name: string, text: string): string {
    InQuotes(id) + ":" + ("{" + (InQuotes(name) + ":" + text) + "}")
  }

  // An object's text, and an array's.
  function ObjectText(members: seq<string>): string { "{" + J.Join(members) + "}" }

  function ArrayText(elems: seq<string>): string { "[" + J.Join(elems) + "]" }

  function InQuotes(text: string): string { "\"" + text + "\"" }

  function MemberText(C: Classes, fid: int, t: Type, v: Value): string {
    J.PrintMember(FieldMember(C, Field(fid, t, Null), v, true))
  }

  lemma {:induction false} KnownMember(C: Classes, fid: int, t: Type, v: Value, id: string, name: string, text: string)
    requires J.Numeral(fid) == id && Name(Tag(t)) == name && J.Print(Tree(C, t, v, true)) == text
    ensures MemberText(C, fid, t, v) == FieldText(id, name, text)
  {
    var member := J.Member(TypeName(Tag(t)), Tree(C, t, v, true));
    J.EscapePlain(id);
    OneMember(member);
  }

  lemma {:induction false} OneMember(member: J.Member)
    ensures J.Print(J.Obj([member])) == "{" + (J.Quote(member.name) + ":" + J.Print(member.value)) + "}"
  {
    assert J.PrintMember(member) + "" == J.PrintMember(member);
  }

  // One field of each type of scalar.
  lemma {:induction false} KnownScalars(C: Classes, n: string)
    ensures MemberText(C, 1, Scalar(BOOL), Atom(BOOL, "1")) == FieldText("1", "tf", "1")
    ensures MemberText(C, 2, Scalar(BYTE), Atom(BYTE, n)) == FieldText("2", "i8", n)
    ensures MemberText(C, 3, Scalar(I16), Atom(I16, n)) == FieldText("3", "i16", n)
  {
    KnownMember(C, 1, Scalar(BOOL), Atom(BOOL, "1"), "1", "tf", "1");
    KnownMember(C, 2, Scalar(BYTE), Atom(BYTE, n), "2", "i8", n);
    KnownMember(C, 3, Scalar(I16), Atom(I16, n), "3", "i16", n);
  }

  lemma {:induction false} KnownNumbers(C: Classes, n: string)
    ensures MemberText(C, 4, Scalar(I32), Atom(I32, n)) == FieldText("4", "i32", n)
    ensures MemberText(C, 5, Scalar(I64), Atom(I64, n)) == FieldText("5", "i64", n)
    ensures MemberText(C, -6, Scalar(DOUBLE), Atom(DOUBLE, n)) == FieldText("-6", "dbl", n)
  {
    KnownMember(C, 4, Scalar(I32), Atom(I32, n), "4", "i32", n);
    KnownMember(C, 5, Scalar(I64), Atom(I64, n), "5", "i64", n);
    KnownMember(C, -6, Scalar(DOUBLE), Atom(DOUBLE, n), "-6", "dbl", n);
  }

  lemma {:induction false} KnownString(C: Classes)
    ensures MemberText(C, 7, Scalar(STRING), Atom(STRING, "x")) == FieldText("7", "str", "\"x\"")
  {
    J.EscapePlain("x");
    KnownMember(C, 7, Scalar(STRING), Atom(STRING, "x"), "7", "str", "\"x\"");
  }

  lemma {:induction false} KnownStruct(C: Classes)
    ensures MemberText(C, 1, Struct("S"), Object("S", [])) == FieldText("1", "rec", ObjectText([]))
  {
    KnownMember(C, 1, Struct("S"), Object("S", []), "1", "rec", ObjectText([]));
  }

  // A map has its types and size before its pairs, and keys are quoted.
  lemma {:induction false} KnownMap(C: Classes, n: string)
    ensures MemberText(C, 2, Map(Scalar(I16), Scalar(I32)), Pairs([(Atom(I16, "10"), Atom(I32, n))]))
         == FieldText("2", "map", ArrayText([InQuotes("i16"), InQuotes("i32"), "1",
                                             ObjectText([InQuotes("10") + ":" + n])]))
  {
    OneEntry(C, n);
    PlainNames();
    MapMember(C, 2, Scalar(I16), Scalar(I32), Pairs([(Atom(I16, "10"), Atom(I32, n))]), "2", "i16", "i32", "1", "10",
              n);
  }

  lemma {:induction false} PlainNames()
    ensures J.Plain("i16") && J.Plain("i32") && J.Plain("10")
  {
  }

  lemma {:induction false} MapMember(C: Classes, fid: int, t: Type, u: Type, v: Value, id: string, key: string,
                                     val: string, size: string, k: string, n: string)
    requires J.Plain(key) && J.Plain(val) && J.Plain(k) && J.Numeral(fid) == id
    requires Tree(C, Map(t, u), v, true)
          == J.Arr([J.Str(key), J.Str(val), J.Num(size), J.Obj([J.Member(k, J.Num(n))])])
    ensures MemberText(C, fid, Map(t, u), v)
         == FieldText(id, "map", ArrayText([InQuotes(key), InQuotes(val), size, ObjectText([InQuotes(k) + ":" + n])]))
  {
    MapArray(key, val, size, k, n);
    KnownMember(C, fid, Map(t, u), v, id, "map",
                ArrayText([InQuotes(key), InQuotes(val), size, ObjectText([InQuotes(k) + ":" + n])]));
  }

  lemma {:induction false} MapArray(key: string, val: string, size: string, k: string, n: string)
    requires J.Plain(key) && J.Plain(val) && J.Plain(k)
    ensures J.Print(J.Arr([J.Str(key), J.Str(val), J.Num(size), J.Obj([J.Member(k, J.Num(n))])]))
         == ArrayText([InQuotes(key), InQuotes(val), size, ObjectText([InQuotes(k) + ":" + n])])
  {
    var entry := J.Member(k, J.Num(n));
    J.EscapePlain(k);
    J.EscapePlain(key);
    J.EscapePlain(val);
    OneMember(entry);
    ElemsText([J.Str(key), J.Str(val), J.Num(size), J.Obj([entry])],
              [InQuotes(key), InQuotes(val), size, ObjectText([InQuotes(k) + ":" + n])]);
  }

  lemma {:induction false} OneEntry(C: Classes, n: string)
    ensures var v := Pairs([(Atom(I16, "10"), Atom(I32, n))]);
            Tree(C, Map(Scalar(I16), Scalar(I32)), v, true)
            == J.Arr([J.Str("i16"), J.Str("i32"), J.Num("1"), J.Obj([J.Member("10", J.Num(n))])])
  {
    var v := Pairs([(Atom(I16, "10"), Atom(I32, n))]);
    assert Entries(C, Scalar(I32), v, true, 1) == [];
    var entry := J.Member("10", J.Num(n));
    assert KeyName(Atom(I16, "10")) == "10";
    assert Entries(C, Scalar(I32), v, true, 0) == [entry] + [];
    assert [entry] + [] == [entry] && J.Decimal(1) == "1";
  }

  lemma {:induction false} ElemsText(elems: seq<J.Json>, texts: seq<string>)
    requires |texts| == |elems| && forall i :: 0 <= i < |elems| ==> texts[i] == J.Print(elems[i])
    ensures J.Print(J.Arr(elems)) == ArrayText(texts)
  {
    J.JoinElems(elems);
    assert J.ElemTexts(elems) == texts;
  }

  // A list has its type and size before its elements, and so has a set.
  lemma {:induction false} KnownList(C: Classes, m: string, n: string)
    ensures MemberText(C, 3, List(Scalar(I32)), Items([Atom(I32, m), Atom(I32, n)]))
         == FieldText("3", "lst", ArrayText([InQuotes("i32"), "2", m, n]))
  {
    TwoElements(C, m, n);
    ListArray("i32", "2", m, n);
    KnownMember(C, 3, List(Scalar(I32)), Items([Atom(I32, m), Atom(I32, n)]), "3", "lst",
                ArrayText([InQuotes("i32"), "2", m, n]));
  }

  lemma {:induction false} ListArray(elem: string, size: string, m: string, n: string)
    requires J.Plain(elem)
    ensures J.Print(J.Arr([J.Str(elem), J.Num(size), J.Num(m), J.Num(n)])) == ArrayText([InQuotes(elem), size, m, n])
  {
    J.EscapePlain(elem);
    ElemsText([J.Str(elem), J.Num(size), J.Num(m), J.Num(n)], [InQuotes(elem), size, m, n]);
  }

  lemma {:induction false} TwoElements(C: Classes, m: string, n: string)
    ensures Tree(C, List(Scalar(I32)), Items([Atom(I32, m), Atom(I32, n)]), true)
         == J.Arr([J.Str("i32"), J.Num("2"), J.Num(m), J.Num(n)])
  {
    var v := Items([Atom(I32, m), Atom(I32, n)]);
    assert Elements(C, Scalar(I32), v, true, 2) == [];
    assert Elements(C, Scalar(I32), v, true, 1) == [J.Num(n)] + [];
    assert Elements(C, Scalar(I32), v, true, 0) == [J.Num(m)] + [J.Num(n)];
    assert J.Decimal(2) == "2";
  }

  lemma {:induction false} KnownSet(C: Classes)
    ensures MemberText(C, 4, Set(Scalar(I64)), Items([])) == FieldText("4", "set", ArrayText([InQuotes("i64"), "0"]))
  {
    NoElements(C);
    EmptyArray("i64", "0");
    KnownMember(C, 4, Set(Scalar(I64)), Items([]), "4", "set", ArrayText([InQuotes("i64"), "0"]));
  }

  lemma {:induction false} NoElements(C: Classes)
    ensures Tree(C, Set(Scalar(I64)), Items([]), true) == J.Arr([J.Str("i64"), J.Num("0")])
  {
    var elems := [J.Str("i64"), J.Num("0")];
    assert Elements(C, Scalar(I64), Items([]), true, 0) == [] && elems + [] == elems && J.Decimal(0) == "0";
  }

  lemma {:induction false} EmptyArray(elem: string, size: string)
    requires J.Plain(elem)
    ensures J.Print(J.Arr([J.Str(elem), J.Num(size)])) == ArrayText([InQuotes(elem), size])
  {
    J.EscapePlain(elem);
    ElemsText([J.Str(elem), J.Num(size)], [InQuotes(elem), size]);
  }
}
