// The doc comment cleaner of the Thrift compiler (clean_up_doctext, thrift/compiler/cpp/src/main.cc).
module Doctext {
  import opened Options

  predicate White(c: char) { c == ' ' || c == '\t' }

  // find_first_not_of(" \t"); the length stands for npos.
  function FirstNot(s: string): (n: nat)
    ensures n <= |s| && forall i :: 0 <= i < n ==> s[i] == ' ' || s[i] == '\t'
    ensures n < |s| ==> s[n] != ' ' && s[n] != '\t'
  {
    if s == "" || !White(s[0]) then 0 else 1 + FirstNot(s[1..])
  }

  // find_last_not_of(" \t") + 1
  function LastNot(s: string): (n: nat)
    ensures n <= |s| && forall i :: n <= i < |s| ==> s[i] == ' ' || s[i] == '\t'
    ensures 0 < n ==> s[n - 1] != ' ' && s[n - 1] != '\t'
  {
    if s == "" || !White(s[|s| - 1]) then |s| else LastNot(s[..|s| - 1])
  }

  predicate Blank(s: string) { FirstNot(s) == |s| }

  // erase(0, n)
  function Erase(s: string, n: nat): string {
    if n <= |s| then s[n..] else ""
  }

  // ---------------------------------------------------------------------------
  // What the passes make of the lines
  // ---------------------------------------------------------------------------

  function WithoutReturns(s: string): string {
    if s == "" then "" else (if s[0] == '\r' then "" else [s[0]]) + WithoutReturns(s[1..])
  }

  // The lines of a text; what follows the last newline is one if it is not blank.
  function Lines(s: string, line: string): seq<string> {
    if s == "" then (if Blank(line) then [] else [line])
    else if s[0] == '\n' then [line] + Lines(s[1..], "")
    else Lines(s[1..], line + [s[0]])
  }

  // What is known of the stars that lines begin with: none was seen yet, they are at a column, or
  // the pattern has been broken.
  datatype Prefix = Unseen | Star(column: nat) | Broken

  function Look(p: Prefix, line: string): Prefix {
    var n := FirstNot(line);
    if n == |line| then p
    else if p.Unseen? then (if line[n] == '*' then Star(n) else Broken)
    else if p.Star? && line[n] == '*' && n == p.column then p
    else Broken
  }

  function PrefixOf(p: Prefix, rest: seq<string>): Prefix
    decreases |rest|
  {
    if rest == [] || p.Broken? then p else PrefixOf(Look(p, rest[0]), rest[1..])
  }

  // Blank lines up to where the pattern is broken are emptied.
  function Emptied(p: Prefix, rest: seq<string>): (r: seq<string>)
    ensures |r| == |rest|
    decreases |rest|
  {
    if rest == [] || p.Broken? || Look(p, rest[0]).Broken? then rest
    else [if Blank(rest[0]) then "" else rest[0]] + Emptied(Look(p, rest[0]), rest[1..])
  }

  function EraseAll(lines: seq<string>, n: nat): (r: seq<string>)
    ensures |r| == |lines| && forall i :: 0 <= i < |lines| ==> r[i] == Erase(lines[i], n)
  {
    seq(|lines|, i requires 0 <= i < |lines| => Erase(lines[i], n))
  }

  function WithoutStars(rest: seq<string>): (r: seq<string>)
    ensures |r| == |rest|
  {
    match PrefixOf(Unseen, rest)
    case Unseen => EraseAll(Emptied(Unseen, rest), 1)
    case Star(column) => EraseAll(Emptied(Unseen, rest), column + 1)
    case Broken => Emptied(Unseen, rest)
  }

  // The least indentation of a line that is not blank.
  function Indent(rest: seq<string>): Option<nat> {
    if rest == [] then None
    else
      var others, n := Indent(rest[..|rest| - 1]), FirstNot(rest[|rest| - 1]);
      if n < |rest[|rest| - 1]| && (others == None || n < others.value) then Some(n) else others
  }

  function Dedented(rest: seq<string>): (r: seq<string>)
    ensures |r| == |rest|
  {
    if Indent(rest) == None then rest else EraseAll(rest, Indent(rest).value)
  }

  // White space at a line's end goes, but not all there is of a line.
  function TrimEnd(s: string): string {
    if LastNot(s) == 0 then s else s[..LastNot(s)]
  }

  function TrimAll(lines: seq<string>): (r: seq<string>)
    ensures |r| == |lines| && forall i :: 0 <= i < |lines| ==> r[i] == TrimEnd(lines[i])
  {
    seq(|lines|, i requires 0 <= i < |lines| => TrimEnd(lines[i]))
  }

  function Passed(lines: seq<string>): (r: seq<string>)
    requires lines != []
    ensures |r| == |lines|
  {
    TrimAll([Erase(lines[0], FirstNot(lines[0]))] + Dedented(WithoutStars(lines[1..])))
  }

  function DropEmptyFirst(lines: seq<string>): seq<string> {
    if lines != [] && lines[0] == "" then lines[1..] else lines
  }

  function Joined(lines: seq<string>): string {
    if lines == [] then "" else Joined(lines[..|lines| - 1]) + lines[|lines| - 1] + "\n"
  }

  // The text that is copied back, if any.
  function Cleaned(doctext: string): Option<string> {
    var lines := Lines(WithoutReturns(doctext), "");
    if lines == [] then None else Some(Joined(DropEmptyFirst(Passed(lines))))
  }

  // ---------------------------------------------------------------------------
  // The loops
  // ---------------------------------------------------------------------------

  method Split(docstring: string) returns (lines: seq<string>)
    ensures lines == Lines(docstring, "")
  {
    lines := [];
    var last := 0;
    while true
      invariant last <= |docstring| && lines + Lines(docstring[last..], "") == Lines(docstring, "")
      decreases |docstring| - last
    {
      var pos := last;
      assert docstring[last..pos] == "";
      while pos < |docstring| && docstring[pos] != '\n'
        invariant last <= pos <= |docstring|
                  && Lines(docstring[last..], "") == Lines(docstring[pos..], docstring[last..pos])
      {
        assert docstring[pos..][1..] == docstring[pos + 1..]
               && docstring[last..pos] + [docstring[pos]] == docstring[last..pos + 1];
        pos := pos + 1;
      }
      if pos == |docstring| {
        if FirstNot(docstring[last..]) != |docstring| - last {
          lines := lines + [docstring[last..]];
        }
        assert docstring[last..pos] == docstring[last..];
        return;
      }
      assert docstring[pos..][1..] == docstring[pos + 1..];
      lines := lines + [docstring[last..pos]];
      last := pos + 1;
    }
  }

  // The loop over the lines after the first that looks for stars.
  method FindStars(lines: seq<string>) returns (lines': seq<string>, havePrefix: bool, prefixLen: nat)
    requires lines != []
    ensures lines' == [lines[0]] + Emptied(Unseen, lines[1..])
    ensures var p := PrefixOf(Unseen, lines[1..]);
            havePrefix == !p.Broken? && (havePrefix ==> prefixLen == if p.Star? then p.column else 0)
  {
    lines', havePrefix, prefixLen := lines, true, 0;
    var foundPrefix := false;
    ghost var p := Unseen;
    var i := 1;
    while i < |lines|
      invariant 1 <= i <= |lines| == |lines'|
      invariant p == if foundPrefix then Star(prefixLen) else Unseen
      invariant havePrefix && (!foundPrefix ==> prefixLen == 0)
      invariant PrefixOf(Unseen, lines[1..]) == PrefixOf(p, lines[i..])
      invariant [lines[0]] + Emptied(Unseen, lines[1..]) == lines'[..i] + Emptied(p, lines[i..])
                && lines'[i..] == lines[i..]
    {
      var line := lines'[i];
      assert lines[i..][0] == line && lines[i..][1..] == lines[i + 1..];
      var pos := FirstNot(line);
      if !foundPrefix && pos != |line| {
        if line[pos] == '*' {
          foundPrefix, prefixLen := true, pos;
          p := Star(pos);
        } else {
          havePrefix := false;
          break;
        }
      } else if foundPrefix && |line| > pos && line[pos] == '*' && pos == prefixLen {
      } else if pos == |line| {
        lines' := lines'[i := ""];
      } else {
        havePrefix := false;
        break;
      }
      i := i + 1;
    }
    assert lines'[..i] + lines'[i..] == lines';
  }

  // The loops that erase the beginnings of all lines after the first.
  method EraseRest(lines: seq<string>, prefixLen: nat) returns (lines': seq<string>)
    requires lines != []
    ensures lines' == [lines[0]] + EraseAll(lines[1..], prefixLen)
  {
    lines' := lines;
    for i := 1 to |lines|
      invariant |lines'| == |lines| && lines'[0] == lines[0]
      invariant forall k :: 1 <= k < i ==> lines'[k] == Erase(lines[k], prefixLen)
      invariant forall k :: i <= k < |lines| ==> lines'[k] == lines[k]
    {
      lines' := lines'[i := Erase(lines'[i], prefixLen)];
    }
  }

  method LeastIndent(lines: seq<string>) returns (prefixLen: Option<nat>)
    requires lines != []
    ensures prefixLen == Indent(lines[1..])
  {
    prefixLen := None;
    ghost var rest := lines[1..];
    for i := 1 to |lines|
      invariant prefixLen == Indent(rest[..i - 1])
    {
      assert rest[..i][..i - 1] == rest[..i - 1] && rest[..i][i - 1] == lines[i];
      if lines[i] != "" {
        var pos := FirstNot(lines[i]);
        if pos != |lines[i]| && (prefixLen == None || pos < prefixLen.value) {
          prefixLen := Some(pos);
        }
      }
    }
    assert rest[..|lines| - 1] == rest;
  }

  method TrimLines(lines: seq<string>) returns (lines': seq<string>)
    ensures lines' == TrimAll(lines)
  {
    lines' := lines;
    for i := 0 to |lines|
      invariant |lines'| == |lines|
      invariant forall k :: 0 <= k < i ==> lines'[k] == TrimEnd(lines[k])
      invariant forall k :: i <= k < |lines| ==> lines'[k] == lines[k]
    {
      var end := LastNot(lines'[i]);
      if end != 0 && end != |lines'[i]| {
        lines' := lines'[i := lines'[i][..end]];
      }
    }
  }

  method Rejoin(lines: seq<string>) returns (docstring: string)
    ensures docstring == Joined(lines)
  {
    docstring := "";
    for i := 0 to |lines|
      invariant docstring == Joined(lines[..i])
    {
      assert lines[..i + 1][..i] == lines[..i];
      docstring := docstring + lines[i];
      docstring := docstring + "\n";
    }
    assert lines[..|lines|] == lines;
  }

  method RemoveStars(lines: seq<string>) returns (lines': seq<string>)
    requires lines != []
    ensures lines' == [lines[0]] + WithoutStars(lines[1..])
  {
    var havePrefix, prefixLen;
    lines', havePrefix, prefixLen := FindStars(lines);
    ghost var emptied := Emptied(Unseen, lines[1..]);
    assert lines'[1..] == emptied && lines'[0] == lines[0];
    if havePrefix {
      prefixLen := prefixLen + 1;
      lines' := EraseRest(lines', prefixLen);
      StarsRemoved(lines[1..], prefixLen);
    }
  }

  lemma {:induction false} StarsRemoved(rest: seq<string>, n: nat)
    requires var p := PrefixOf(Unseen, rest); !p.Broken? && n == 1 + if p.Star? then p.column else 0
    ensures WithoutStars(rest) == EraseAll(Emptied(Unseen, rest), n)
  {
  }

  method RemoveIndent(lines: seq<string>) returns (lines': seq<string>)
    requires lines != []
    ensures lines' == [lines[0]] + Dedented(lines[1..])
  {
    lines' := lines;
    var prefixLen := LeastIndent(lines);
    if prefixLen.Some? {
      lines' := EraseRest(lines, prefixLen.value);
    }
  }

  // clean_up_doctext: the new text, and whether its last assertion holds.
  method CleanUp(doctext: string) returns (cleaned: Option<string>, asserted: bool)
    ensures cleaned == Cleaned(doctext)
    ensures asserted == (cleaned.Some? ==> |cleaned.value| <= |doctext|)
    ensures cleaned.Some? ==>
              '\r' !in cleaned.value && forall line :: line in Lines(cleaned.value, "") ==> EndOk(line)
  {
    var lines := Split(WithoutReturns(doctext));
    if lines == [] {
      return None, true;
    }
    ghost var rest := lines[1..];
    lines := lines[0 := Erase(lines[0], FirstNot(lines[0]))];
    ghost var first := lines[0];
    lines := RemoveStars(lines);
    lines := RemoveIndent(lines);
    assert lines == [first] + Dedented(WithoutStars(rest));
    lines := TrimLines(lines);
    if lines[0] == "" {
      lines := lines[1..];
    }
    var docstring := Rejoin(lines);
    cleaned, asserted := Some(docstring), |docstring| <= |doctext|;
    CleanedTidy(doctext);
  }

  // ---------------------------------------------------------------------------
  // No content is lost
  // ---------------------------------------------------------------------------

  function Content(s: string): string {
    if s == "" then "" else (if White(s[0]) || s[0] == '\n' || s[0] == '\r' then "" else [s[0]]) + Content(s[1..])
  }

  function ContentOf(lines: seq<string>): string {
    if lines == [] then "" else Content(lines[0]) + ContentOf(lines[1..])
  }

  // The content of lines that begin with stars, without the stars.
  function StarlessContent(lines: seq<string>): string {
    if lines == [] then ""
    else (if Content(lines[0]) == "" then "" else Content(lines[0])[1..]) + StarlessContent(lines[1..])
  }

  lemma {:induction false} ContentConcat(a: string, b: string)
    ensures Content(a + b) == Content(a) + Content(b)
  {
    if a == "" {
      assert a + b == b;
    } else {
      ContentConcat(a[1..], b);
      assert (a + b)[1..] == a[1..] + b && (a + b)[0] == a[0];
      Associative(if White(a[0]) || a[0] == '\n' || a[0] == '\r' then "" else [a[0]], Content(a[1..]), Content(b));
    }
  }

  lemma {:induction false} Associative(a: string, b: string, c: string)
    ensures a + (b + c) == a + b + c
  {
  }

  lemma {:induction false} ContentOfConcat(a: seq<string>, b: seq<string>)
    ensures ContentOf(a + b) == ContentOf(a) + ContentOf(b)
  {
    if a == [] {
      assert a + b == b;
    } else {
      ContentOfConcat(a[1..], b);
      assert (a + b)[1..] == a[1..] + b && (a + b)[0] == a[0];
      Associative(Content(a[0]), ContentOf(a[1..]), ContentOf(b));
    }
  }

  lemma {:induction false} ContentWhite(s: string)
    requires forall i :: 0 <= i < |s| ==> White(s[i])
    ensures Content(s) == ""
  {
    if s != "" {
      ContentWhite(s[1..]);
    }
  }

  lemma {:induction false} ContentNoReturns(s: string)
    ensures Content(WithoutReturns(s)) == Content(s)
  {
    if s != "" {
      ContentNoReturns(s[1..]);
      var others := WithoutReturns(s[1..]);
      assert "" + others == others && ([s[0]] + others)[1..] == others && "" + Content(others) == Content(others);
    }
  }

  lemma {:induction false} ContentOfCons(line: string, lines: seq<string>)
    ensures ContentOf([line] + lines) == Content(line) + ContentOf(lines)
  {
    assert ([line] + lines)[1..] == lines;
  }

  lemma {:induction false} ContentLines(s: string, line: string)
    ensures ContentOf(Lines(s, line)) == Content(line + s)
    decreases |s|
  {
    if s == "" {
      assert line + s == line;
      if Blank(line) {
        ContentWhite(line);
      } else {
        assert [line][1..] == [] && Content(line) + "" == Content(line);
      }
    } else {
      if s[0] == '\n' {
        var others := Lines(s[1..], "");
        ContentLines(s[1..], "");
        ContentConcat(line, s);
        assert Content(s) == Content(s[1..]) && "" + s[1..] == s[1..];
        ContentOfCons(line, others);
      } else {
        ContentLines(s[1..], line + [s[0]]);
        assert line + [s[0]] + s[1..] == line + s;
      }
    }
  }

  lemma {:induction false} ContentJoined(lines: seq<string>)
    ensures Content(Joined(lines)) == ContentOf(lines)
  {
    if lines != [] {
      var before, last := lines[..|lines| - 1], lines[|lines| - 1];
      ContentJoined(before);
      ContentConcat(Joined(before) + last, "\n");
      ContentConcat(Joined(before), last);
      ContentOfConcat(before, [last]);
      assert lines == before + [last] && [last][1..] == [] && Content("\n") == "";
    }
  }

  // Erasing white space from the beginning or the end of a line.
  lemma {:induction false} ContentErase(s: string, n: nat)
    requires n <= FirstNot(s) || Blank(s)
    ensures Content(Erase(s, n)) == Content(s)
  {
    if n <= |s| {
      ContentConcat(s[..n], s[n..]);
      ContentWhite(s[..n]);
      assert s == s[..n] + s[n..];
    } else {
      ContentWhite(s);
    }
  }

  lemma {:induction false} ContentTrim(s: string)
    ensures Content(TrimEnd(s)) == Content(s)
  {
    var n := LastNot(s);
    ContentConcat(s[..n], s[n..]);
    ContentWhite(s[n..]);
    assert s == s[..n] + s[n..];
  }

  lemma {:induction false} ContentTrimAll(lines: seq<string>)
    ensures ContentOf(TrimAll(lines)) == ContentOf(lines)
  {
    if lines != [] {
      ContentTrim(lines[0]);
      ContentTrimAll(lines[1..]);
      assert TrimAll(lines)[1..] == TrimAll(lines[1..]);
    }
  }

  // No line is indented less than Indent says.
  lemma {:induction false} IndentIsLeast(rest: seq<string>, i: nat)
    requires i < |rest| && !Blank(rest[i])
    ensures Indent(rest).Some? && Indent(rest).value <= FirstNot(rest[i])
  {
    if i < |rest| - 1 {
      IndentIsLeast(rest[..|rest| - 1], i);
    }
  }

  lemma {:induction false} ContentEraseAll(lines: seq<string>, n: nat)
    requires forall i :: 0 <= i < |lines| ==> n <= FirstNot(lines[i]) || Blank(lines[i])
    ensures ContentOf(EraseAll(lines, n)) == ContentOf(lines)
  {
    if lines != [] {
      ContentErase(lines[0], n);
      ContentEraseAll(lines[1..], n);
      assert EraseAll(lines, n)[1..] == EraseAll(lines[1..], n);
    }
  }

  lemma {:induction false} ContentDedented(rest: seq<string>)
    ensures ContentOf(Dedented(rest)) == ContentOf(rest)
  {
    if Indent(rest).Some? {
      forall i | 0 <= i < |rest|
        ensures Indent(rest).value <= FirstNot(rest[i]) || Blank(rest[i])
      {
        if !Blank(rest[i]) {
          IndentIsLeast(rest, i);
        }
      }
      ContentEraseAll(rest, Indent(rest).value);
    }
  }

  lemma {:induction false} ContentEmptied(p: Prefix, rest: seq<string>)
    ensures ContentOf(Emptied(p, rest)) == ContentOf(rest)
    decreases |rest|
  {
    if rest != [] && !p.Broken? && !Look(p, rest[0]).Broken? {
      ContentEmptied(Look(p, rest[0]), rest[1..]);
      if Blank(rest[0]) {
        ContentWhite(rest[0]);
      }
      var tail := Emptied(Look(p, rest[0]), rest[1..]);
      assert Emptied(p, rest)[1..] == tail;
    }
  }

  // Where the pattern holds, a line that is not blank has its star at the column.
  lemma {:induction false} StarsHold(p: Prefix, rest: seq<string>, i: nat)
    requires i < |rest| && !PrefixOf(p, rest).Broken? && !Blank(rest[i])
    ensures PrefixOf(p, rest) == Star(FirstNot(rest[i])) && rest[i][FirstNot(rest[i])] == '*'
    ensures p.Star? ==> PrefixOf(p, rest) == p
    decreases |rest|
  {
    if i == 0 {
      StarStays(Look(p, rest[0]), rest[1..]);
    } else {
      StarsHold(Look(p, rest[0]), rest[1..], i - 1);
    }
  }

  lemma {:induction false} StarStays(p: Prefix, rest: seq<string>)
    requires p.Star?
    ensures PrefixOf(p, rest) == p || PrefixOf(p, rest).Broken?
    decreases |rest|
  {
    if rest != [] && !Look(p, rest[0]).Broken? {
      StarStays(Look(p, rest[0]), rest[1..]);
    }
  }

  // Every line that is not blank begins with a star at that column.
  ghost predicate StarsAt(rest: seq<string>, column: nat) {
    forall i :: 0 <= i < |rest| && !Blank(rest[i]) ==> FirstNot(rest[i]) == column && rest[i][column] == '*'
  }

  ghost predicate AllBlank(rest: seq<string>) {
    forall i :: 0 <= i < |rest| ==> Blank(rest[i])
  }

  // The loop finds exactly that, when there is a line that is not blank.
  lemma {:induction false} StarPattern(rest: seq<string>, column: nat)
    ensures PrefixOf(Unseen, rest) == Star(column) <==> !AllBlank(rest) && StarsAt(rest, column)
    ensures PrefixOf(Unseen, rest) == Unseen <==> AllBlank(rest)
  {
    if AllBlank(rest) || StarsAt(rest, column) {
      StarsFound(Unseen, rest, column);
    }
    if !PrefixOf(Unseen, rest).Broken? {
      forall i | 0 <= i < |rest| && !Blank(rest[i])
        ensures PrefixOf(Unseen, rest) == Star(FirstNot(rest[i])) && rest[i][FirstNot(rest[i])] == '*'
      {
        StarsHold(Unseen, rest, i);
      }
    }
  }

  lemma {:induction false} StarsFound(p: Prefix, rest: seq<string>, column: nat)
    requires (p == Unseen || p == Star(column)) && StarsAt(rest, column)
    ensures PrefixOf(p, rest) == if AllBlank(rest) then p else Star(column)
    decreases |rest|
  {
    if rest != [] {
      var others := rest[1..];
      StarsFound(Look(p, rest[0]), others, column);
      assert AllBlank(rest) <==> Blank(rest[0]) && AllBlank(others) by {
        assert forall i :: 1 <= i < |rest| ==> rest[i] == others[i - 1];
      }
    }
  }

  lemma {:induction false} EmptiedAt(p: Prefix, rest: seq<string>, i: nat)
    requires i < |rest|
    ensures Emptied(p, rest)[i] == rest[i] || (Blank(rest[i]) && Emptied(p, rest)[i] == "")
    ensures !PrefixOf(p, rest).Broken? && Blank(rest[i]) ==> Emptied(p, rest)[i] == ""
    decreases |rest|
  {
    assert Look(p, rest[0]).Broken? ==> PrefixOf(Look(p, rest[0]), rest[1..]).Broken?;
    if !p.Broken? && !Look(p, rest[0]).Broken? && i > 0 {
      EmptiedAt(Look(p, rest[0]), rest[1..], i - 1);
    }
  }

  lemma {:induction false} ContentStars(lines: seq<string>, column: nat)
    requires forall i :: 0 <= i < |lines| ==>
               lines[i] == "" || (FirstNot(lines[i]) == column < |lines[i]| && lines[i][column] == '*')
    ensures ContentOf(EraseAll(lines, column + 1)) == StarlessContent(lines)
  {
    if lines != [] {
      ContentStars(lines[1..], column);
      assert EraseAll(lines, column + 1)[1..] == EraseAll(lines[1..], column + 1);
      var line := lines[0];
      if line != "" {
        var after := line[column + 1..];
        assert line == line[..column] + (['*'] + after);
        ContentConcat(line[..column], ['*'] + after);
        ContentWhite(line[..column]);
        assert (['*'] + after)[1..] == after && (['*'] + Content(after))[1..] == Content(after);
        assert Content(line) == ['*'] + Content(after);
      }
    }
  }

  lemma {:induction false} ContentWithoutStars(rest: seq<string>)
    ensures ContentOf(WithoutStars(rest))
         == if PrefixOf(Unseen, rest).Star? then StarlessContent(Emptied(Unseen, rest)) else ContentOf(rest)
  {
    var lines, p := Emptied(Unseen, rest), PrefixOf(Unseen, rest);
    ContentEmptied(Unseen, rest);
    if !p.Broken? {
      forall i | 0 <= i < |lines|
        ensures lines[i] == "" || (p.Star? && FirstNot(lines[i]) == p.column < |lines[i]| && lines[i][p.column] == '*')
      {
        EmptiedAt(Unseen, rest, i);
        if !Blank(rest[i]) {
          StarsHold(Unseen, rest, i);
        }
      }
      if p.Star? {
        ContentStars(lines, p.column);
      } else {
        ContentEraseAll(lines, 1);
      }
    }
  }

  // What comes out is what went in, but for white space, and for one star at the beginning of every
  // line after the first if those that are not blank all have one, at the same column.
  lemma {:induction false} ContentKept(doctext: string)
    ensures Cleaned(doctext) == None ==> Content(doctext) == ""
    ensures var lines := Lines(WithoutReturns(doctext), "");
            Cleaned(doctext).Some? ==>
              && Content(doctext) == Content(lines[0]) + ContentOf(lines[1..])
              && Content(Cleaned(doctext).value)
              == Content(lines[0])
               + if PrefixOf(Unseen, lines[1..]).Star? then StarlessContent(Emptied(Unseen, lines[1..]))
                   else ContentOf(lines[1..])
  {
    var text := WithoutReturns(doctext);
    ContentNoReturns(doctext);
    ContentLines(text, "");
    assert "" + text == text;
    var lines := Lines(text, "");
    if lines != [] {
      var first, rest := Erase(lines[0], FirstNot(lines[0])), Dedented(WithoutStars(lines[1..]));
      ContentErase(lines[0], FirstNot(lines[0]));
      ContentWithoutStars(lines[1..]);
      ContentDedented(WithoutStars(lines[1..]));
      ContentOfCons(first, rest);
      ContentTrimAll([first] + rest);
      ContentDropEmpty(Passed(lines));
      ContentJoined(DropEmptyFirst(Passed(lines)));
    }
  }

  lemma {:induction false} ContentDropEmpty(lines: seq<string>)
    ensures ContentOf(DropEmptyFirst(lines)) == ContentOf(lines)
  {
    if lines != [] && lines[0] == "" {
      assert "" + ContentOf(lines[1..]) == ContentOf(lines[1..]);
    }
  }

  // ---------------------------------------------------------------------------
  // Relative indentation is kept
  // ---------------------------------------------------------------------------

  lemma {:induction false} SomeIndent(rest: seq<string>) returns (i: nat)
    requires Indent(rest).Some?
    ensures i < |rest| && !Blank(rest[i]) && FirstNot(rest[i]) == Indent(rest).value
  {
    var n := FirstNot(rest[|rest| - 1]);
    var others := Indent(rest[..|rest| - 1]);
    if n < |rest[|rest| - 1]| && (others == None || n < others.value) {
      i := |rest| - 1;
    } else {
      i := SomeIndent(rest[..|rest| - 1]);
    }
  }

  lemma {:induction false} FirstNotErase(s: string, n: nat)
    requires n <= FirstNot(s) < |s|
    ensures FirstNot(Erase(s, n)) == FirstNot(s) - n && !Blank(Erase(s, n))
  {
    if n > 0 {
      FirstNotErase(s[1..], n - 1);
      assert s[1..][n - 1..] == s[n..];
    }
  }

  // All lines that are not blank lose the same, and one of them all it has.
  lemma {:induction false} IndentKept(rest: seq<string>, i: nat)
    requires i < |rest| && !Blank(rest[i])
    ensures Indent(rest).Some? && !Blank(Dedented(rest)[i])
    ensures FirstNot(Dedented(rest)[i]) == FirstNot(rest[i]) - Indent(rest).value
    ensures exists k :: 0 <= k < |rest| && !Blank(rest[k]) && FirstNot(Dedented(rest)[k]) == 0
  {
    IndentIsLeast(rest, i);
    FirstNotErase(rest[i], Indent(rest).value);
    var k := SomeIndent(rest);
    FirstNotErase(rest[k], Indent(rest).value);
  }

  lemma {:induction false} FirstNotTrim(s: string)
    requires !Blank(s)
    ensures FirstNot(TrimEnd(s)) == FirstNot(s) && !Blank(TrimEnd(s))
  {
    var n, end := FirstNot(s), LastNot(s);
    assert n < end by {
      assert !White(s[n]);
    }
    FirstNotPrefix(s, end);
  }

  lemma {:induction false} FirstNotPrefix(s: string, end: nat)
    requires FirstNot(s) < end <= |s|
    ensures FirstNot(s[..end]) == FirstNot(s)
  {
    if White(s[0]) {
      FirstNotPrefix(s[1..], end - 1);
      assert s[..end][1..] == s[1..][..end - 1];
    }
  }

  // What counts of a line, when p is known of the stars.
  function BehindStar(p: Prefix, line: string): string {
    if p.Star? then Erase(line, p.column + 1) else line
  }

  lemma {:induction false} BehindStarAt(rest: seq<string>, i: nat)
    requires i < |rest| && !Blank(BehindStar(PrefixOf(Unseen, rest), rest[i]))
    ensures WithoutStars(rest)[i] == BehindStar(PrefixOf(Unseen, rest), rest[i])
  {
    var p := PrefixOf(Unseen, rest);
    EmptiedAt(Unseen, rest, i);
    BlankBehind(p, rest[i]);
    if p.Unseen? {
      StarPattern(rest, 0);
    }
  }

  lemma {:induction false} BlankBehind(p: Prefix, line: string)
    ensures Blank(line) ==> Blank(BehindStar(p, line))
  {
  }

  // The lines of the new text are those that the passes leave.
  lemma {:induction false} CleanedLines(doctext: string)
    requires Cleaned(doctext).Some?
    ensures Lines(Cleaned(doctext).value, "") == DropEmptyFirst(Passed(Lines(WithoutReturns(doctext), "")))
  {
    var lines := Lines(WithoutReturns(doctext), "");
    OneLineEach(WithoutReturns(doctext), "");
    PassedEach(lines, '\n');
    LinesJoined(DropEmptyFirst(Passed(lines)));
  }

  // None of them has that character in it.
  ghost predicate Each(lines: seq<string>, c: char) {
    forall i :: 0 <= i < |lines| ==> c !in lines[i]
  }

  lemma {:induction false} PassedEach(lines: seq<string>, c: char)
    requires lines != [] && Each(lines, c)
    ensures Each(Passed(lines), c)
  {
    var first, rest := Erase(lines[0], FirstNot(lines[0])), lines[1..];
    EmptiedEach(rest, c);
    StarsEach(rest, c);
    DedentedEach(WithoutStars(rest), c);
    FirstEach(first, Dedented(WithoutStars(rest)), c);
    TrimEach([first] + Dedented(WithoutStars(rest)), c);
  }

  lemma {:induction false} FirstEach(first: string, rest: seq<string>, c: char)
    requires c !in first && Each(rest, c)
    ensures Each([first] + rest, c)
  {
  }

  lemma {:induction false} EmptiedEach(rest: seq<string>, c: char)
    requires Each(rest, c)
    ensures Each(Emptied(Unseen, rest), c)
  {
    forall i | 0 <= i < |rest|
      ensures c !in Emptied(Unseen, rest)[i]
    {
      EmptiedAt(Unseen, rest, i);
    }
  }

  lemma {:induction false} StarsEach(rest: seq<string>, c: char)
    requires Each(Emptied(Unseen, rest), c)
    ensures Each(WithoutStars(rest), c)
  {
  }

  lemma {:induction false} DedentedEach(rest: seq<string>, c: char)
    requires Each(rest, c)
    ensures Each(Dedented(rest), c)
  {
  }

  lemma {:induction false} TrimEach(lines: seq<string>, c: char)
    requires Each(lines, c)
    ensures Each(TrimAll(lines), c)
  {
  }

  lemma {:induction false} OneLineEach(s: string, line: string)
    requires '\n' !in line
    ensures Each(Lines(s, line), '\n')
    decreases |s|
  {
    if s != "" {
      OneLineEach(s[1..], if s[0] == '\n' then "" else line + [s[0]]);
    }
  }

  lemma {:induction false} LinesEach(s: string, line: string, c: char)
    requires c !in s && c !in line
    ensures Each(Lines(s, line), c)
    decreases |s|
  {
    if s != "" {
      LinesEach(s[1..], if s[0] == '\n' then "" else line + [s[0]], c);
    }
  }

  lemma {:induction false} LinesJoined(lines: seq<string>)
    requires Each(lines, '\n')
    ensures Lines(Joined(lines), "") == lines
  {
    if lines != [] {
      var before, last := lines[..|lines| - 1], lines[|lines| - 1];
      LinesJoined(before);
      LinesSnoc(Joined(before), "", last);
      assert before + [last] == lines;
    }
  }

  lemma {:induction false} LinesSnoc(s: string, line: string, last: string)
    requires if s == "" then line == "" else s[|s| - 1] == '\n'
    requires '\n' !in last
    ensures Lines(s + last + "\n", line) == Lines(s, line) + [last]
    decreases |s|
  {
    var text := s + last + "\n";
    if s == "" {
      LineRead(last, "");
      assert text == last + "\n" && "" + last == last;
    } else {
      assert text[1..] == s[1..] + last + "\n" && text[0] == s[0];
      LinesSnoc(s[1..], if s[0] == '\n' then "" else line + [s[0]], last);
    }
  }

  lemma {:induction false} LineRead(last: string, line: string)
    requires '\n' !in last
    ensures Lines(last + "\n", line) == [line + last]
    decreases |last|
  {
    var text := last + "\n";
    if last == "" {
      assert text[1..] == "" && Lines("", "") == [] && line + last == line;
    } else {
      assert text[1..] == last[1..] + "\n" && text[0] == last[0];
      LineRead(last[1..], line + [last[0]]);
      assert line + [last[0]] + last[1..] == line + last;
    }
  }

  // The text without its carriage returns, one character after the other.
  lemma {:induction false} ReturnsGone(s: string, c: char)
    ensures '\r' !in WithoutReturns(s)
    ensures WithoutReturns(s + [c]) == WithoutReturns(s) + if c == '\r' then "" else [c]
  {
    if s == "" {
      assert s + [c] == [c] && [c][1..] == "" && [c] + "" == [c] && "" + [c] == [c];
    } else {
      ReturnsGone(s[1..], c);
      assert (s + [c])[1..] == s[1..] + [c] && (s + [c])[0] == s[0];
    }
  }

  // A line that does not end in white space, or is nothing else.
  predicate EndOk(s: string) {
    s != "" && White(s[|s| - 1]) ==> forall i :: 0 <= i < |s| ==> White(s[i])
  }

  lemma {:induction false} TrimEndIs(s: string)
    ensures EndOk(TrimEnd(s)) && TrimEnd(s) <= s
    ensures forall i :: |TrimEnd(s)| <= i < |s| ==> White(s[i])
  {
  }

  // In the new text there is no carriage return, and no line ends in white space, unless it is blank.
  lemma {:induction false} CleanedTidy(doctext: string)
    requires Cleaned(doctext).Some?
    ensures '\r' !in Cleaned(doctext).value
    ensures forall i :: 0 <= i < |Lines(Cleaned(doctext).value, "")| ==> EndOk(Lines(Cleaned(doctext).value, "")[i])
  {
    var lines := Lines(WithoutReturns(doctext), "");
    ReturnsGone(doctext, 'x');
    LinesEach(WithoutReturns(doctext), "", '\r');
    PassedEach(lines, '\r');
    JoinedWithout(DropEmptyFirst(Passed(lines)), '\r');
    CleanedLines(doctext);
    forall i | 0 <= i < |lines|
      ensures EndOk(Passed(lines)[i])
    {
      TrimEndIs(([Erase(lines[0], FirstNot(lines[0]))] + Dedented(WithoutStars(lines[1..])))[i]);
    }
  }

  lemma {:induction false} JoinedWithout(lines: seq<string>, c: char)
    requires Each(lines, c) && c != '\n'
    ensures c !in Joined(lines)
  {
    if lines != [] {
      JoinedWithout(lines[..|lines| - 1], c);
    }
  }

  // In the new text the lines after the first, behind their stars if they all have one, are indented
  // as they were relative to one another.
  lemma {:induction false} RelativeIndentKept(doctext: string, i: nat, j: nat)
    requires Counts(Lines(WithoutReturns(doctext), ""), i) && Counts(Lines(WithoutReturns(doctext), ""), j)
    ensures var lines := Lines(WithoutReturns(doctext), "");
            var passed := Passed(lines);
            && Lines(Cleaned(doctext).value, "") == DropEmptyFirst(passed)
            && !Blank(passed[i]) && !Blank(passed[j])
            && FirstNot(passed[i]) - FirstNot(passed[j]) == IndentBefore(lines, i) - IndentBefore(lines, j)
  {
    var lines := Lines(WithoutReturns(doctext), "");
    CleanedLines(doctext);
    PassedIndent(lines, i);
    PassedIndent(lines, j);
  }

  // And one of them is not indented.
  lemma {:induction false} OneNotIndented(doctext: string, i: nat) returns (k: nat)
    requires Counts(Lines(WithoutReturns(doctext), ""), i)
    ensures var passed := Passed(Lines(WithoutReturns(doctext), ""));
            && Lines(Cleaned(doctext).value, "") == DropEmptyFirst(passed)
            && 1 <= k < |passed| && !Blank(passed[k]) && FirstNot(passed[k]) == 0
  {
    var lines := Lines(WithoutReturns(doctext), "");
    CleanedLines(doctext);
    PassedIndent(lines, i);
    k := SomeIndent(WithoutStars(lines[1..]));
    k := k + 1;
    StarlessIndent(lines, k);
  }

  // The lines after the first that have something behind the star.
  predicate Counts(lines: seq<string>, i: nat) {
    1 <= i < |lines| && !Blank(BehindStar(PrefixOf(Unseen, lines[1..]), lines[i]))
  }

  function IndentBefore(lines: seq<string>, i: nat): nat
    requires 1 <= i < |lines|
  {
    FirstNot(BehindStar(PrefixOf(Unseen, lines[1..]), lines[i]))
  }

  lemma {:induction false} PassedIndent(lines: seq<string>, i: nat)
    requires Counts(lines, i)
    ensures Indent(WithoutStars(lines[1..])).Some? && !Blank(Passed(lines)[i])
    ensures FirstNot(Passed(lines)[i]) == IndentBefore(lines, i) - Indent(WithoutStars(lines[1..])).value
  {
    BehindStarAt(lines[1..], i - 1);
    StarlessIndent(lines, i);
  }

  lemma {:induction false} StarlessIndent(lines: seq<string>, i: nat)
    requires 1 <= i < |lines| && !Blank(WithoutStars(lines[1..])[i - 1])
    ensures var w := WithoutStars(lines[1..]);
            && Indent(w).Some? && !Blank(Passed(lines)[i])
            && FirstNot(Passed(lines)[i]) == FirstNot(w[i - 1]) - Indent(w).value
  {
    var w := WithoutStars(lines[1..]);
    IndentKept(w, i - 1);
    FirstNotTrim(Dedented(w)[i - 1]);
    assert Passed(lines)[i] == TrimEnd(Dedented(w)[i - 1]);
  }

  // ---------------------------------------------------------------------------
  // The last assertion
  // ---------------------------------------------------------------------------

  // The length of the lines when each has its newline.
  function Size(lines: seq<string>): nat {
    if lines == [] then 0 else |lines[0]| + 1 + Size(lines[1..])
  }

  // The text ends with a line that is kept.
  predicate LastKept(s: string, line: string) {
    if s == "" then !Blank(line) else if s[0] == '\n' then LastKept(s[1..], "") else LastKept(s[1..], line + [s[0]])
  }

  lemma {:induction false} SizeLines(s: string, line: string)
    ensures if LastKept(s, line) then Size(Lines(s, line)) == |line| + |s| + 1 else Size(Lines(s, line)) <= |line| + |s|
    decreases |s|
  {
    if s == "" {
      assert [line][1..] == [];
    } else if s[0] == '\n' {
      SizeLines(s[1..], "");
      assert ([line] + Lines(s[1..], ""))[1..] == Lines(s[1..], "");
    } else {
      SizeLines(s[1..], line + [s[0]]);
    }
  }

  lemma {:induction false} SizeSnoc(lines: seq<string>, line: string)
    ensures Size(lines + [line]) == Size(lines) + |line| + 1
  {
    if lines == [] {
      assert [line][1..] == [];
    } else {
      SizeSnoc(lines[1..], line);
      assert (lines + [line])[1..] == lines[1..] + [line];
    }
  }

  lemma {:induction false} SizeJoined(lines: seq<string>)
    ensures |Joined(lines)| == Size(lines)
  {
    if lines != [] {
      SizeJoined(lines[..|lines| - 1]);
      SizeSnoc(lines[..|lines| - 1], lines[|lines| - 1]);
      assert lines == lines[..|lines| - 1] + [lines[|lines| - 1]];
    }
  }

  lemma {:induction false} SizeNoReturns(s: string)
    ensures |WithoutReturns(s)| <= |s| && (|WithoutReturns(s)| == |s| <==> '\r' !in s)
    ensures '\r' !in s ==> WithoutReturns(s) == s
  {
    if s != "" {
      SizeNoReturns(s[1..]);
      assert forall c :: c in s <==> c == s[0] || c in s[1..];
    }
  }

  // Lines that only got shorter: together they are as long as before only if they are the same.
  ghost predicate Shorter(new_: seq<string>, old_: seq<string>) {
    |new_| == |old_| && forall i :: 0 <= i < |old_| ==> |new_[i]| < |old_[i]| || new_[i] == old_[i]
  }

  lemma {:induction false} SizeShorter(new_: seq<string>, old_: seq<string>)
    requires Shorter(new_, old_)
    ensures Size(new_) <= Size(old_) && (Size(new_) == Size(old_) <==> new_ == old_)
  {
    if old_ != [] {
      assert Shorter(new_[1..], old_[1..]) by {
        assert forall i :: 0 <= i < |old_| - 1 ==> new_[1..][i] == new_[i + 1] && old_[1..][i] == old_[i + 1];
      }
      SizeShorter(new_[1..], old_[1..]);
      assert new_ == [new_[0]] + new_[1..] && old_ == [old_[0]] + old_[1..];
    }
  }

  lemma {:induction false} StarsShorter(rest: seq<string>)
    ensures Shorter(WithoutStars(rest), rest)
  {
    forall i | 0 <= i < |rest|
      ensures |WithoutStars(rest)[i]| < |rest[i]| || WithoutStars(rest)[i] == rest[i]
    {
      EmptiedAt(Unseen, rest, i);
    }
  }

  lemma {:induction false} DedentShorter(rest: seq<string>)
    ensures Shorter(Dedented(rest), rest)
  {
  }

  lemma {:induction false} TrimShorter(lines: seq<string>)
    ensures Shorter(TrimAll(lines), lines)
  {
  }

  // The lines after the first only get shorter, and stay the same only if they do in every pass.
  lemma {:induction false} RestShorter(rest: seq<string>)
    ensures var stars := WithoutStars(rest);
            var all := TrimAll(Dedented(stars));
            Shorter(all, rest) && (all == rest ==> stars == Dedented(stars) == rest)
  {
    var stars := WithoutStars(rest);
    StarsShorter(rest);
    DedentShorter(stars);
    TrimShorter(Dedented(stars));
    ShorterTrans(Dedented(stars), stars, rest);
    ShorterTrans(TrimAll(Dedented(stars)), Dedented(stars), rest);
  }

  lemma {:induction false} ShorterTrans(a: seq<string>, b: seq<string>, c: seq<string>)
    requires Shorter(a, b) && Shorter(b, c)
    ensures Shorter(a, c) && (a == c ==> a == b == c)
  {
    if a == c {
      forall i | 0 <= i < |b|
        ensures b[i] == c[i]
      {
        assert a[i] == c[i];
      }
    }
  }

  // No blank line is emptied before the pattern is broken.
  predicate NoneEmptied(p: Prefix, rest: seq<string>)
    decreases |rest|
  {
    rest == [] || p.Broken? || Look(p, rest[0]).Broken?
    || ((Blank(rest[0]) ==> rest[0] == "") && NoneEmptied(Look(p, rest[0]), rest[1..]))
  }

  lemma {:induction false} EmptiedSame(p: Prefix, rest: seq<string>)
    ensures Emptied(p, rest) == rest <==> NoneEmptied(p, rest)
    decreases |rest|
  {
    if rest != [] && !p.Broken? && !Look(p, rest[0]).Broken? {
      EmptiedSame(Look(p, rest[0]), rest[1..]);
      var tail := Emptied(Look(p, rest[0]), rest[1..]);
      var first := if Blank(rest[0]) then "" else rest[0];
      assert Emptied(p, rest)[0] == first && Emptied(p, rest)[1..] == tail;
      assert rest == [rest[0]] + rest[1..];
    }
  }

  // Lines with which there is nothing to do: the first is not empty and has no white space around
  // it; the others have no pattern of stars, an indentation of nothing, and no white space at the
  // end, unless they are blank and the pattern was broken before.
  predicate Tidy(lines: seq<string>) {
    && lines != [] && lines[0] != "" && FirstNot(lines[0]) == 0 && LastNot(lines[0]) == |lines[0]|
    && (|lines| > 1 ==>
          && PrefixOf(Unseen, lines[1..]).Broken? && NoneEmptied(Unseen, lines[1..]) && Indent(lines[1..]) == Some(0)
          && forall i :: 1 <= i < |lines| ==> LastNot(lines[i]) == |lines[i]| || LastNot(lines[i]) == 0)
  }

  // With the last line not blank, the passes leave the others alone exactly if they are tidy.
  lemma {:induction false} RestSame(rest: seq<string>)
    requires rest != [] && !Blank(rest[|rest| - 1])
    ensures TrimAll(Dedented(WithoutStars(rest))) == rest <==>
            PrefixOf(Unseen, rest).Broken? && NoneEmptied(Unseen, rest) && Indent(rest) == Some(0) && Trimmed(rest)
  {
    RestShorter(rest);
    EmptiedSame(Unseen, rest);
    StarsSame(rest);
    IndentIsLeast(rest, |rest| - 1);
    DedentedSame(rest);
    TrimSame(rest);
  }

  lemma {:induction false} StarsSame(rest: seq<string>)
    requires rest != [] && !Blank(rest[|rest| - 1])
    ensures WithoutStars(rest) == rest <==> PrefixOf(Unseen, rest).Broken? && Emptied(Unseen, rest) == rest
  {
    var last := |rest| - 1;
    EmptiedAt(Unseen, rest, last);
    if !PrefixOf(Unseen, rest).Broken? {
      StarsHold(Unseen, rest, last);
      assert |WithoutStars(rest)[last]| < |rest[last]|;
    }
  }

  lemma {:induction false} DedentedSame(rest: seq<string>)
    requires Indent(rest).Some?
    ensures Dedented(rest) == rest <==> Indent(rest) == Some(0)
  {
    var k := SomeIndent(rest);
    if Indent(rest).value > 0 {
      assert |Dedented(rest)[k]| < |rest[k]|;
    } else {
      assert forall i :: 0 <= i < |rest| ==> Erase(rest[i], 0) == rest[i];
    }
  }

  lemma {:induction false} TrimSame(lines: seq<string>)
    ensures TrimAll(lines) == lines <==> Trimmed(lines)
  {
    forall i | 0 <= i < |lines|
      ensures TrimEnd(lines[i]) == lines[i] <==> LastNot(lines[i]) == |lines[i]| || LastNot(lines[i]) == 0
    {
      if LastNot(lines[i]) != 0 && LastNot(lines[i]) != |lines[i]| {
        assert |TrimEnd(lines[i])| < |lines[i]|;
      }
    }
    if TrimAll(lines) == lines {
      forall i | 0 <= i < |lines| ensures TrimEnd(lines[i]) == lines[i] {
        assert TrimAll(lines)[i] == lines[i];
      }
    }
  }

  lemma {:induction false} LastLine(s: string, line: string)
    requires LastKept(s, line)
    ensures var lines := Lines(s, line); lines != [] && !Blank(lines[|lines| - 1])
    decreases |s|
  {
    if s != "" {
      if s[0] == '\n' {
        LastLine(s[1..], "");
      } else {
        LastLine(s[1..], line + [s[0]]);
      }
    }
  }

  lemma {:induction false} PassedSame(lines: seq<string>)
    requires lines != [] && !Blank(lines[|lines| - 1])
    ensures Passed(lines) == lines && lines[0] != "" <==> Tidy(lines)
  {
    PassedCons(lines);
    SameFrom(TrimEnd(Erase(lines[0], FirstNot(lines[0]))), TrimAll(Dedented(WithoutStars(lines[1..]))), lines);
    FirstSame(lines[0]);
    if |lines| > 1 {
      RestSame(lines[1..]);
      RestTrimmed(lines);
    }
  }

  predicate Trimmed(lines: seq<string>) {
    forall i :: 0 <= i < |lines| ==> LastNot(lines[i]) == |lines[i]| || LastNot(lines[i]) == 0
  }

  lemma {:induction false} RestTrimmed(lines: seq<string>)
    requires lines != []
    ensures Trimmed(lines[1..]) <==>
              forall i :: 1 <= i < |lines| ==> LastNot(lines[i]) == |lines[i]| || LastNot(lines[i]) == 0
  {
    assert forall i :: 1 <= i < |lines| ==> lines[i] == lines[1..][i - 1];
  }

  lemma {:induction false} PassedCons(lines: seq<string>)
    requires lines != []
    ensures Passed(lines) == [TrimEnd(Erase(lines[0], FirstNot(lines[0])))]
            + TrimAll(Dedented(WithoutStars(lines[1..])))
  {
  }

  lemma {:induction false} SameFrom(first: string, rest: seq<string>, lines: seq<string>)
    requires lines != []
    ensures [first] + rest == lines <==> first == lines[0] && rest == lines[1..]
  {
    assert ([first] + rest)[1..] == rest;
  }

  lemma {:induction false} ShorterFrom(first: string, rest: seq<string>, lines: seq<string>)
    requires lines != [] && Shorter(rest, lines[1..]) && (|first| < |lines[0]| || first == lines[0])
    ensures Shorter([first] + rest, lines)
  {
    assert forall i :: 1 <= i < |lines| ==> lines[i] == lines[1..][i - 1];
  }

  lemma {:induction false} FirstSame(s: string)
    ensures TrimEnd(Erase(s, FirstNot(s))) == s && s != "" <==> s != "" && FirstNot(s) == 0 && LastNot(s) == |s|
  {
    if s != "" && FirstNot(s) == 0 {
      assert Erase(s, 0) == s && !White(s[0]);
      assert LastNot(s) > 0;
    }
  }

  lemma {:induction false} PassedShorter(lines: seq<string>)
    requires lines != []
    ensures Shorter(Passed(lines), lines)
  {
    RestShorter(lines[1..]);
    PassedCons(lines);
    ShorterFrom(TrimEnd(Erase(lines[0], FirstNot(lines[0]))), TrimAll(Dedented(WithoutStars(lines[1..]))), lines);
  }

  // The new text is longer than the old one, and then by one character, exactly if nothing was to
  // be done to it: it has no carriage return, ends with a line that is kept, and is tidy.
  lemma {:induction false} AssertionFails(doctext: string)
    requires Cleaned(doctext).Some?
    ensures |Cleaned(doctext).value| <= |doctext| + 1
    ensures |Cleaned(doctext).value| > |doctext| <==>
              '\r' !in doctext && LastKept(doctext, "") && Tidy(Lines(doctext, ""))
  {
    var text := WithoutReturns(doctext);
    SizeNoReturns(doctext);
    SizeLines(text, "");
    var lines := Lines(text, "");
    var passed := Passed(lines);
    PassedShorter(lines);
    SizeShorter(passed, lines);
    SizeJoined(DropEmptyFirst(passed));
    if LastKept(text, "") {
      LastLine(text, "");
      PassedSame(lines);
    }
  }

  // So it is for a comment of one character.
  lemma {:induction false} AssertionFailsOnce()
    ensures Cleaned("x") == Some("x\n")
  {
    var x, lines: seq<string> := "x", ["x"];
    assert x[1..] == "" && WithoutReturns(x) == x && [x[0]] + "" == x && "" + [x[0]] == x;
    assert Lines(x, "") == Lines("", x) == lines;
    assert lines[1..] == [] && Erase(x, 0) == x && TrimEnd(x) == x;
    assert WithoutStars([]) == [] && Dedented([]) == [] && lines + [] == lines;
    assert Passed(lines) == lines;
    assert lines[..0] == [] && Joined(lines) == "" + x + "\n" == "x\n";
  }
}
