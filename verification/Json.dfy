// JSON texts (RFC 8259) without insignificant whitespace: what the JavaScript protocol writes and
// what the parser it calls makes of it. A number is kept as its text.
module Json {
  datatype Json = Num(text: string) | Str(text: string) | Arr(elems: seq<Json>) | Obj(members: seq<Member>)

  datatype Member = Member(name: string, value: Json)

  datatype Result<T> = Done(value: T, rest: string) | Failed

  // ---------------------------------------------------------------------------
  // Numerals
  // ---------------------------------------------------------------------------

  predicate IsDigit(c: char) { '0' <= c <= '9' }

  function Digit(d: nat): (c: char)
    requires d < 10
    ensures IsDigit(c) && c as int == '0' as int + d
  {
    (d + '0' as int) as char
  }

  function DigitValue(c: char): nat
    requires IsDigit(c)
  {
    c as int - '0' as int
  }

  // A natural number's decimal numeral.
  function Decimal(n: nat): (s: string)
    ensures s != "" && forall i :: 0 <= i < |s| ==> IsDigit(s[i])
  {
    if n < 10 then [Digit(n)] else Decimal(n / 10) + [Digit(n % 10)]
  }

  // parseInt of a numeral.
  function Number(s: string): nat
    requires forall i :: 0 <= i < |s| ==> IsDigit(s[i])
  {
    if s == "" then 0 else 10 * Number(s[..|s| - 1]) + DigitValue(s[|s| - 1])
  }

  lemma {:induction false} NumberDecimal(n: nat)
    ensures Number(Decimal(n)) == n
  {
    if n >= 10 {
      NumberDecimal(n / 10);
      assert Decimal(n)[..|Decimal(n)| - 1] == Decimal(n / 10);
    }
  }

  // An integer's numeral, and parseInt of it.
  function Numeral(n: int): string {
    if n < 0 then "-" + Decimal(-n) else Decimal(n)
  }

  function ParseInt(s: string): int {
    var minus := s != "" && s[0] == '-';
    var n: int := Leading(if minus then s[1..] else s);
    if minus then -n else n
  }

  // The number that the leading digits make.
  function Leading(s: string): nat {
    if forall i :: 0 <= i < |s| ==> IsDigit(s[i]) then Number(s) else Leading(s[..|s| - 1])
  }

  lemma {:induction false} ParseNumeral(n: int)
    ensures ParseInt(Numeral(n)) == n
  {
    var digits := Decimal(if n < 0 then -n else n);
    NumberDecimal(if n < 0 then -n else n);
    AllLeading(digits);
    if n < 0 {
      assert Numeral(n)[0] == '-' && Numeral(n)[1..] == digits;
    } else {
      assert IsDigit(digits[0]);
    }
  }

  lemma {:induction false} AllLeading(s: string)
    requires forall i :: 0 <= i < |s| ==> IsDigit(s[i])
    ensures Leading(s) == Number(s)
  {
  }

  // The number grammar of section 6 of RFC 8259, as an automaton.
  datatype Scan = Start | Minus | Zero | Whole | Dot | Frac | Exp | ExpSign | ExpDigits | Bad

  function Step(s: Scan, c: char): Scan {
    match s
    case Start => if c == '-' then Minus else if c == '0' then Zero else if IsDigit(c) then Whole else Bad
    case Minus => if c == '0' then Zero else if IsDigit(c) then Whole else Bad
    case Zero => if c == '.' then Dot else if c == 'e' || c == 'E' then Exp else Bad
    case Whole => if IsDigit(c) then Whole else if c == '.' then Dot else if c == 'e' || c == 'E' then Exp else Bad
    case Dot => if IsDigit(c) then Frac else Bad
    case Frac => if IsDigit(c) then Frac else if c == 'e' || c == 'E' then Exp else Bad
    case Exp => if IsDigit(c) then ExpDigits else if c == '+' || c == '-' then ExpSign else Bad
    case ExpSign => if IsDigit(c) then ExpDigits else Bad
    case ExpDigits => if IsDigit(c) then ExpDigits else Bad
    case Bad => Bad
  }

  function ScanOf(s: string): Scan {
    if s == "" then Start else Step(ScanOf(s[..|s| - 1]), s[|s| - 1])
  }

  predicate NumberText(s: string) {
    ScanOf(s) in {Zero, Whole, Frac, ExpDigits}
  }

  lemma {:induction false} DecimalIsNumber(n: nat)
    ensures ScanOf(Decimal(n)) == if n == 0 then Zero else Whole
  {
    if n >= 10 {
      DecimalIsNumber(n / 10);
      assert Decimal(n)[..|Decimal(n)| - 1] == Decimal(n / 10);
    } else {
      assert [Digit(n)][..0] == "";
    }
  }

  // A number text that stands for zero: there is no other digit before the exponent.
  predicate ZeroText(s: string) {
    NumberText(s) && NoDigit(s)
  }

  predicate NoDigit(s: string) {
    s == "" || s[0] in "eE" || (s[0] !in "123456789" && NoDigit(s[1..]))
  }

  predicate NumberChar(c: char) { IsDigit(c) || c in "-+.eE" }

  lemma {:induction false} NumberChars(s: string)
    requires ScanOf(s) != Bad
    ensures forall i :: 0 <= i < |s| ==> NumberChar(s[i])
  {
    if s != "" {
      NumberChars(s[..|s| - 1]);
      assert NumberChar(s[|s| - 1]);
    }
  }

  // ---------------------------------------------------------------------------
  // Strings
  // ---------------------------------------------------------------------------

  const BACKSPACE: char := 8 as char
  const FORMFEED: char := 12 as char

  // What writeString puts out for a character.
  function Escaped(c: char): (s: string)
    ensures s != ""
  {
    if c == '\"' then "\\\"" else if c == '\\' then "\\\\" else if c == BACKSPACE then "\\b"
    else if c == FORMFEED then "\\f"
    else if c == '\n' then "\\n" else if c == '\r' then "\\r" else if c == '\t' then "\\t" else [c]
  }

  function Escape(s: string): string {
    if s == "" then "" else Escaped(s[0]) + Escape(s[1..])
  }

  lemma {:induction false} EscapePlain(s: string)
    requires forall i :: 0 <= i < |s| ==> Escaped(s[i]) == [s[i]]
    ensures Escape(s) == s
  {
    if s != "" {
      EscapePlain(s[1..]);
    }
  }

  // The characters that section 7 of RFC 8259 wants escaped and Escaped leaves as they are.
  predicate Raw(c: char) {
    c as int < 0x20 && c !in {BACKSPACE, FORMFEED, '\n', '\r', '\t'}
  }

  predicate Clean(s: string) {
    forall i :: 0 <= i < |s| ==> !Raw(s[i])
  }

  // A string of section 7 from behind its opening quotation mark; \u is not read.
  function ParseChars(s: string): (r: Result<string>)
    ensures r.Done? ==> |r.rest| < |s|
  {
    if s == "" || s[0] as int < 0x20 then Failed
    else if s[0] == '\"' then Done("", s[1..])
    else
      var escape := s[0] == '\\';
      if escape && (|s| < 2 || s[1] !in "\"\\/bfnrt") then Failed else
        match ParseChars(if escape then s[2..] else s[1..])
        case Done(cs, rest) => Done([if escape then Unescaped(s[1]) else s[0]] + cs, rest)
        case Failed => Failed
  }

  function Unescaped(c: char): char {
    if c == 'b' then BACKSPACE else if c == 'f' then FORMFEED
    else if c == 'n' then '\n' else if c == 'r' then '\r' else if c == 't' then '\t' else c
  }

  // Escaped text is read back exactly if no other control character is in the string.
  lemma {:induction false} ParseEscaped(s: string, rest: string)
    ensures ParseChars(Escape(s) + "\"" + rest) == if Clean(s) then Done(s, rest) else Failed
  {
    if s == "" {
      assert Escape(s) + "\"" + rest == "\"" + rest && ("\"" + rest)[1..] == rest;
    } else {
      var tail := Escape(s[1..]) + "\"" + rest;
      ParseEscaped(s[1..], rest);
      ParseChar(s[0], tail);
      assert Escape(s) + "\"" + rest == Escaped(s[0]) + tail;
      assert Clean(s) <==> !Raw(s[0]) && Clean(s[1..]) by {
        assert forall i :: 0 <= i < |s| - 1 ==> s[1..][i] == s[i + 1];
        assert forall i :: 0 < i < |s| ==> s[i] == s[1..][i - 1];
      }
      assert [s[0]] + s[1..] == s;
    }
  }

  // Text without an escape, and with nothing that would need one.
  predicate Plain(s: string) {
    forall i :: 0 <= i < |s| ==> Escaped(s[i]) == [s[i]] && !Raw(s[i])
  }

  // Text that is put between quotation marks without being escaped is read as it is exactly if it
  // needs no escaping.
  lemma {:induction false} ParseUnescaped(s: string, rest: string)
    ensures var r := ParseChars(s + "\"" + rest); r.Done? && r.value == s <==> Plain(s)
    ensures Plain(s) ==> ParseChars(s + "\"" + rest) == Done(s, rest)
  {
    var text := s + "\"" + rest;
    if s == "" {
      assert text[0] == '\"' && text[1..] == rest;
    } else if s[0] == '\\' {
      ParseBehind(s, rest, 0, 0);
    } else {
      ParseUnescaped(s[1..], rest);
      assert text[0] == s[0] && text[1..] == s[1..] + "\"" + rest;
      assert Plain(s) <==> Escaped(s[0]) == [s[0]] && !Raw(s[0]) && Plain(s[1..]);
    }
  }

  // What is read from b on is not the same as what starts with the backslashes from a up to b.
  lemma {:induction false} ParseBehind(s: string, rest: string, a: nat, b: nat)
    requires a <= b <= |s| && a < |s| && s[a] == '\\' && forall k :: a <= k < b ==> s[k] == '\\'
    ensures ParseChars(s[b..] + "\"" + rest).Done? ==> ParseChars(s[b..] + "\"" + rest).value != s[a..]
    decreases |s| - b
  {
    var text := s[b..] + "\"" + rest;
    if b < |s| && s[b] == '\\' && text[1] == '\\' {
      assert s[b + 1] == '\\' && text[2..] == s[b + 2..] + "\"" + rest;
      ParseBehind(s, rest, a + 1, b + 2);
      assert s[a..][1..] == s[a + 1..];
    }
  }

  // What follows the closing quotation mark is not looked at.
  lemma {:induction false} ParseFollowed(s: string, rest: string)
    ensures ParseChars(s).Done? ==> ParseChars(s + rest) == Done(ParseChars(s).value, ParseChars(s).rest + rest)
  {
    if ParseChars(s).Done? {
      var text := s + rest;
      if s[0] == '\"' {
        assert text[1..] == s[1..] + rest;
      } else {
        var n := if s[0] == '\\' then 2 else 1;
        ParseFollowed(s[n..], rest);
        assert text[n..] == s[n..] + rest && text[..n] == s[..n];
      }
    }
  }

  // A quotation mark ends it, and what a backslash escapes is something else.
  lemma {:induction false} NotPlain(rest: string)
    ensures !Plain("\"") && ParseChars("\"" + "\"" + rest) == Done("", "\"" + rest)
    ensures !Plain("\\n") && ParseChars("\\n" + "\"" + rest) == Done("\n", rest)
  {
    ParseEscaped("", "\"" + rest);
    assert Escape("") + "\"" + ("\"" + rest) == "\"" + "\"" + rest;
    ParseEscaped("\n", rest);
    assert Escape("\n") == "\\n" by {
      assert Escape("\n"[1..]) == "";
    }
    assert "\""[0] == '\"' && "\\n"[0] == '\\';
  }

  lemma {:induction false} ParseChar(c: char, tail: string)
    ensures ParseChars(Escaped(c) + tail)
         == if Raw(c) || ParseChars(tail).Failed? then Failed
            else Done([c] + ParseChars(tail).value, ParseChars(tail).rest)
  {
    var s := Escaped(c) + tail;
    if |Escaped(c)| == 2 {
      assert s[2..] == tail;
      EscapeRead(c, s);
    } else {
      assert s[0] == c && s[1..] == tail;
    }
  }

  lemma {:induction false} EscapeRead(c: char, s: string)
    requires |Escaped(c)| == 2 <= |s| && s[..2] == Escaped(c)
    ensures s[0] == '\\' && s[1] in "\"\\/bfnrt" && Unescaped(s[1]) == c && !Raw(c)
  {
    assert s[0] == s[..2][0] && s[1] == s[..2][1];
  }

  // ---------------------------------------------------------------------------
  // Texts
  // ---------------------------------------------------------------------------

  function Quote(s: string): string { "\"" + Escape(s) + "\"" }

  function Print(j: Json): string {
    match j
    case Num(text) => text
    case Str(text) => Quote(text)
    case Arr(elems) => "[" + PrintElems(elems) + "]"
    case Obj(members) => "{" + PrintMembers(members) + "}"
  }

  function PrintElems(elems: seq<Json>): string {
    if elems == [] then "" else Print(elems[0]) + (if |elems| == 1 then "" else "," + PrintElems(elems[1..]))
  }

  function PrintMembers(members: seq<Member>): string {
    if members == [] then ""
    else PrintMember(members[0]) + (if |members| == 1 then "" else "," + PrintMembers(members[1..]))
  }

  function PrintMember(member: Member): string {
    Quote(member.name) + ":" + Print(member.value)
  }

  // Array.prototype.join(',')
  function Join(texts: seq<string>): string {
    if texts == [] then "" else texts[0] + (if |texts| == 1 then "" else "," + Join(texts[1..]))
  }

  lemma {:induction false} JoinCons(text: string, texts: seq<string>)
    ensures Join([text] + texts) == text + (if texts == [] then "" else "," + Join(texts))
  {
    assert ([text] + texts)[1..] == texts;
  }

  lemma {:induction false} JoinSnoc(texts: seq<string>, text: string)
    ensures Join(texts + [text]) == Join(texts) + (if texts == [] then "" else ",") + text
  {
    if texts != [] {
      JoinSnoc(texts[1..], text);
      assert (texts + [text])[1..] == texts[1..] + [text];
    }
  }

  function ElemTexts(elems: seq<Json>): seq<string> {
    seq(|elems|, i requires 0 <= i < |elems| => Print(elems[i]))
  }

  function MemberTexts(members: seq<Member>): seq<string> {
    seq(|members|, i requires 0 <= i < |members| => PrintMember(members[i]))
  }

  lemma {:induction false} MemberTextsCons(member: Member, members: seq<Member>)
    ensures MemberTexts([member] + members) == [PrintMember(member)] + MemberTexts(members)
  {
  }

  lemma {:induction false} JoinElems(elems: seq<Json>)
    ensures Join(ElemTexts(elems)) == PrintElems(elems)
  {
    if elems != [] {
      JoinElems(elems[1..]);
      assert ElemTexts(elems)[1..] == ElemTexts(elems[1..]);
    }
  }

  lemma {:induction false} JoinMembers(members: seq<Member>)
    ensures Join(MemberTexts(members)) == PrintMembers(members)
  {
    if members != [] {
      JoinMembers(members[1..]);
      assert MemberTexts(members)[1..] == MemberTexts(members[1..]);
    }
  }

  // What a JavaScript number is written as. The last three are no JSON.
  predicate NumberWritten(text: string) {
    NumberText(text) || NotFinite(text)
  }

  predicate NotFinite(text: string) { text == "NaN" || text == "Infinity" || text == "-Infinity" }

  predicate Numeric(j: Json) {
    match j
    case Num(text) => NumberWritten(text)
    case Str(_) => true
    case Arr(elems) => forall i :: 0 <= i < |elems| ==> Numeric(elems[i])
    case Obj(members) => forall i :: 0 <= i < |members| ==> Numeric(members[i].value)
  }

  // Strings and numbers can be read back.
  predicate Legible(j: Json) {
    match j
    case Num(text) => NumberText(text)
    case Str(text) => Clean(text)
    case Arr(elems) => forall i :: 0 <= i < |elems| ==> Legible(elems[i])
    case Obj(members) => forall i :: 0 <= i < |members| ==> LegibleMember(members[i])
  }

  predicate LegibleMember(member: Member) {
    Clean(member.name) && Legible(member.value)
  }

  // object[name] = value
  function SetMember(members: seq<Member>, member: Member): seq<Member> {
    if members == [] then [member]
    else if members[0].name == member.name then [member] + members[1..]
    else [members[0]] + SetMember(members[1..], member)
  }

  // Of members with the same name the last counts.
  function Merged(members: seq<Member>): seq<Member> {
    if members == [] then [] else SetMember(Merged(members[..|members| - 1]), members[|members| - 1])
  }

  // What is read from a tree's text.
  function Settled(j: Json): Json {
    match j
    case Num(_) => j
    case Str(_) => j
    case Arr(elems) => Arr(SettledElems(elems))
    case Obj(members) => Obj(Merged(SettledMembers(members)))
  }

  function SettledElems(elems: seq<Json>): seq<Json> {
    if elems == [] then [] else [Settled(elems[0])] + SettledElems(elems[1..])
  }

  function SettledMembers(members: seq<Member>): seq<Member> {
    if members == [] then []
    else [Member(members[0].name, Settled(members[0].value))] + SettledMembers(members[1..])
  }

  // The longest prefix of number characters.
  function NumberPrefix(s: string): (n: nat)
    ensures n <= |s|
  {
    if s == "" || !NumberChar(s[0]) then 0 else 1 + NumberPrefix(s[1..])
  }

  function Parse(s: string): (r: Result<Json>)
    ensures r.Done? ==> |r.rest| < |s|
    decreases |s|, 0
  {
    if s == "" then Failed
    else if s[0] == '\"' then
      match ParseChars(s[1..])
      case Done(cs, rest) => Done(Str(cs), rest)
      case Failed => Failed
    else if s[0] == '[' then
      if |s| > 1 && s[1] == ']' then Done(Arr([]), s[2..]) else
        match ParseElems(s[1..])
        case Done(elems, rest) => Done(Arr(elems), rest)
        case Failed => Failed
    else if s[0] == '{' then
      if |s| > 1 && s[1] == '}' then Done(Obj([]), s[2..]) else
        match ParseMembers(s[1..])
        case Done(members, rest) => Done(Obj(Merged(members)), rest)
        case Failed => Failed
    else
      var n := NumberPrefix(s);
      if NumberText(s[..n]) then Done(Num(s[..n]), s[n..]) else Failed
  }

  // One element at least, up to the closing bracket.
  function ParseElems(s: string): (r: Result<seq<Json>>)
    ensures r.Done? ==> |r.rest| < |s|
    decreases |s|, 1
  {
    match Parse(s)
    case Failed => Failed
    case Done(j, rest) =>
      if rest == "" then Failed
      else if rest[0] == ']' then Done([j], rest[1..])
      else if rest[0] != ',' then Failed
      else
        match ParseElems(rest[1..])
        case Done(js, rest') => Done([j] + js, rest')
        case Failed => Failed
  }

  function ParseMembers(s: string): (r: Result<seq<Member>>)
    ensures r.Done? ==> |r.rest| < |s|
    decreases |s|, 1
  {
    match ParseMember(s)
    case Failed => Failed
    case Done(m, rest) =>
      if rest == "" then Failed
      else if rest[0] == '}' then Done([m], rest[1..])
      else if rest[0] != ',' then Failed
      else
        match ParseMembers(rest[1..])
        case Done(ms, rest') => Done([m] + ms, rest')
        case Failed => Failed
  }

  function ParseMember(s: string): (r: Result<Member>)
    ensures r.Done? ==> |r.rest| < |s|
    decreases |s|, 0
  {
    if s == "" || s[0] != '\"' then Failed else
      match ParseChars(s[1..])
      case Failed => Failed
      case Done(name, rest) =>
        if rest == "" || rest[0] != ':' then Failed else
          match Parse(rest[1..])
          case Done(j, rest') => Done(Member(name, j), rest')
          case Failed => Failed
  }

  // The first element, when it is a string, or a number behind which there are more.
  lemma {:induction false} StringFirst(quoted: string)
    ensures var r := ParseElems("\"" + quoted);
            r.Done? ==> ParseChars(quoted).Done? && r.value != [] && r.value[0] == Str(ParseChars(quoted).value)
  {
    var s := "\"" + quoted;
    assert s[0] == '\"' && s[1..] == quoted;
  }

  lemma {:induction false} StringNext(quoted: string, value: string, rest: string)
    requires ParseChars(quoted) == Done(value, "," + rest)
    ensures ParseElems("\"" + quoted)
         == match ParseElems(rest)
            case Done(js, rest') => Done([Str(value)] + js, rest')
            case Failed => Failed
  {
    var s := "\"" + quoted;
    assert s[0] == '\"' && s[1..] == quoted && ("," + rest)[1..] == rest;
  }

  lemma {:induction false} NumberFirst(text: string, rest: string)
    requires NumberText(text)
    ensures match ParseElems(rest)
            case Done(js, rest') => ParseElems(text + ("," + rest)) == Done([Num(text)] + js, rest')
            case Failed => ParseElems(text + ("," + rest)).Failed?
  {
    ParseNumber(text, "," + rest);
    assert ("," + rest)[1..] == rest;
  }

  // What can follow a value inside a text.
  predicate Ends(rest: string) {
    rest == "" || rest[0] in ",]}"
  }

  // A text is read back as the tree it was printed from, unless there is a string or number that is not.
  lemma {:induction false} ParsePrint(j: Json, rest: string)
    requires Numeric(j) && Ends(rest)
    ensures Parse(Print(j) + rest) == if Legible(j) then Done(Settled(j), rest) else Failed
    decreases j, 0
  {
    match j
    case Num(text) => ParseNumber(text, rest);
    case Str(text) =>
      assert (Print(j) + rest)[1..] == Escape(text) + "\"" + rest;
      ParseEscaped(text, rest);
    case Arr(elems) =>
      if elems != [] {
        ParsePrintElems(elems, rest);
        PrintsFirst(elems[0]);
      }
      ParseArr(PrintElems(elems), rest);
    case Obj(members) =>
      if members != [] {
        ParsePrintMembers(members, rest);
      }
      ParseObj(PrintMembers(members), rest);
  }

  lemma {:induction false} ParseArr(body: string, rest: string)
    requires body == "" || body[0] != ']'
    ensures Parse("[" + body + "]" + rest)
         == if body == "" then Done(Arr([]), rest) else
              match ParseElems(body + "]" + rest)
              case Done(elems, rest') => Done(Arr(elems), rest')
              case Failed => Failed
  {
    var s := "[" + body + "]" + rest;
    assert s[1..] == body + "]" + rest;
    if body == "" {
      assert s[2..] == rest;
    } else {
      assert s[1] == body[0];
    }
  }

  lemma {:induction false} ParseObj(body: string, rest: string)
    requires body == "" || body[0] != '}'
    ensures Parse("{" + body + "}" + rest)
         == if body == "" then Done(Obj([]), rest) else
              match ParseMembers(body + "}" + rest)
              case Done(members, rest') => Done(Obj(Merged(members)), rest')
              case Failed => Failed
  {
    var s := "{" + body + "}" + rest;
    assert s[1..] == body + "}" + rest;
    if body == "" {
      assert s[2..] == rest;
    } else {
      assert s[1] == body[0];
    }
  }

  lemma {:induction false} PrintsFirst(j: Json)
    requires Numeric(j)
    ensures Print(j) != "" && Print(j)[0] != ']'
  {
    if j.Num? && NumberText(j.text) {
      NumberChars(j.text);
    }
  }

  lemma {:induction false} ParseNumber(text: string, rest: string)
    requires NumberWritten(text) && Ends(rest)
    ensures Parse(text + rest) == if NumberText(text) then Done(Num(text), rest) else Failed
  {
    var s := text + rest;
    if NumberText(text) {
      NumberChars(text);
      assert text != "" && s[0] == text[0] && NumberChar(s[0]);
      PrefixOf(text, rest);
      assert s[..|text|] == text && s[|text|..] == rest;
    } else {
      NoNumber(text, rest);
    }
  }

  lemma {:induction false} OtherChar(s: string, i: nat)
    requires i < |s| && !NumberChar(s[i])
    ensures ScanOf(s) == Bad
  {
    if i < |s| - 1 {
      OtherChar(s[..|s| - 1], i);
    }
  }

  lemma {:induction false} NoNumber(text: string, rest: string)
    requires NotFinite(text)
    ensures !NumberText(text) && Parse(text + rest).Failed?
  {
    var s := text + rest;
    assert s[0] == text[0];
    OtherChar(text, 1);
    if text == "-Infinity" {
      assert s[1..][0] == 'I' && NumberPrefix(s[1..]) == 0;
      assert NumberPrefix(s) == 1 && s[..1] == "-";
      assert "-"[..0] == "" && ScanOf("-") == Minus;
    } else {
      assert NumberPrefix(s) == 0 && s[..0] == "";
    }
  }

  lemma {:induction false} PrefixOf(text: string, rest: string)
    requires (forall i :: 0 <= i < |text| ==> NumberChar(text[i])) && Ends(rest)
    ensures NumberPrefix(text + rest) == |text|
  {
    if text == "" {
      assert text + rest == rest;
    } else {
      PrefixOf(text[1..], rest);
      assert (text + rest)[0] == text[0] && (text + rest)[1..] == text[1..] + rest;
    }
  }

  lemma {:induction false} Behind(a: string, b: string, c: string, d: string)
    ensures a + b + c + d == a + (b + c + d)
  {
  }

  lemma {:induction false} ParsePrintElems(elems: seq<Json>, rest: string)
    requires elems != [] && forall i :: 0 <= i < |elems| ==> Numeric(elems[i])
    ensures ParseElems(PrintElems(elems) + "]" + rest)
         == if Legible(Arr(elems)) then Done(SettledElems(elems), rest) else Failed
    decreases elems, 1
  {
    var more := if |elems| == 1 then "]" + rest else "," + (PrintElems(elems[1..]) + "]" + rest);
    ElemsText(elems, rest);
    ParsePrint(elems[0], more);
    LegibleElems(elems);
    if |elems| == 1 {
      assert more[1..] == rest && SettledElems(elems) == [Settled(elems[0])];
    } else {
      ParsePrintElems(elems[1..], rest);
      assert more[1..] == PrintElems(elems[1..]) + "]" + rest;
    }
  }

  lemma {:induction false} LegibleElems(elems: seq<Json>)
    requires elems != []
    ensures Legible(Arr(elems)) <==> Legible(elems[0]) && Legible(Arr(elems[1..]))
    ensures Numeric(Arr(elems)) <==> Numeric(elems[0]) && Numeric(Arr(elems[1..]))
  {
    assert elems == [elems[0]] + elems[1..];
  }

  lemma {:induction false} ElemsText(elems: seq<Json>, rest: string)
    requires elems != []
    ensures PrintElems(elems) + "]" + rest
         == Print(elems[0]) + (if |elems| == 1 then "]" + rest else "," + (PrintElems(elems[1..]) + "]" + rest))
  {
    if |elems| == 1 {
      Behind(Print(elems[0]), "", "]", rest);
    } else {
      Behind(Print(elems[0]), "," + PrintElems(elems[1..]), "]", rest);
      Behind(",", PrintElems(elems[1..]), "]", rest);
    }
  }

  lemma {:induction false} ParsePrintMembers(members: seq<Member>, rest: string)
    requires members != [] && forall i :: 0 <= i < |members| ==> Numeric(members[i].value)
    ensures ParseMembers(PrintMembers(members) + "}" + rest)
         == if Legible(Obj(members)) then Done(SettledMembers(members), rest) else Failed
    decreases members, 1
  {
    var more := if |members| == 1 then "}" + rest else "," + (PrintMembers(members[1..]) + "}" + rest);
    MembersText(members, rest);
    ParsePrintMember(members[0], more);
    LegibleMembers(members);
    if |members| == 1 {
      assert more[1..] == rest && SettledMembers(members) == [Member(members[0].name, Settled(members[0].value))];
    } else {
      ParsePrintMembers(members[1..], rest);
      assert more[1..] == PrintMembers(members[1..]) + "}" + rest;
    }
  }

  lemma {:induction false} LegibleMembers(members: seq<Member>)
    requires members != []
    ensures Legible(Obj(members)) <==> LegibleMember(members[0]) && Legible(Obj(members[1..]))
    ensures Numeric(Obj(members)) <==> Numeric(members[0].value) && Numeric(Obj(members[1..]))
  {
    assert members == [members[0]] + members[1..];
  }

  lemma {:induction false} MembersText(members: seq<Member>, rest: string)
    requires members != []
    ensures PrintMembers(members) + "}" + rest
         == PrintMember(members[0])
             + (if |members| == 1 then "}" + rest else "," + (PrintMembers(members[1..]) + "}" + rest))
  {
    if |members| == 1 {
      Behind(PrintMember(members[0]), "", "}", rest);
    } else {
      Behind(PrintMember(members[0]), "," + PrintMembers(members[1..]), "}", rest);
      Behind(",", PrintMembers(members[1..]), "}", rest);
    }
  }

  lemma {:induction false} ParsePrintMember(member: Member, rest: string)
    requires Numeric(member.value) && Ends(rest)
    ensures ParseMember(PrintMember(member) + rest)
         == if LegibleMember(member) then Done(Member(member.name, Settled(member.value)), rest) else Failed
    decreases member, 0
  {
    var tail := ":" + (Print(member.value) + rest);
    MemberText(member, rest);
    ParseEscaped(member.name, tail);
    assert tail[1..] == Print(member.value) + rest;
    ParsePrint(member.value, rest);
  }

  lemma {:induction false} MemberText(member: Member, rest: string)
    ensures PrintMember(member) + rest == "\"" + (Escape(member.name) + "\"" + (":" + (Print(member.value) + rest)))
  {
    Behind(Quote(member.name), ":", Print(member.value), rest);
  }
}
