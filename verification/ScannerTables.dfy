// The compressed transition tables of a flex scanner (thrift/compiler/cpp/thriftl.cc) and the
// tokenization they stand for: longest match, first rule.
module ScannerTables {
  newtype Byte = x: int | 0 <= x < 256

  // The action number of the end-of-buffer state, YY_END_OF_BUFFER.
  const END_OF_BUFFER := 170

  datatype Token = Token(rule: int, text: seq<Byte>)

  // ec, meta, base, def, nxt, chk, accept and acclist are the arrays of the same name; states from
  // template on are templates, jamBase is the base of the states without outgoing transitions,
  // jam the state in which nothing can match, eob the end-of-buffer state. rank is a certificate
  // that default chains end.
  datatype Tables = Tables(
    ec: seq<nat>, meta: seq<nat>, base: seq<nat>, def: seq<nat>, nxt: seq<nat>, chk: seq<nat>,
    accept: seq<nat>, acclist: seq<int>, template: nat, jamBase: nat, jam: nat, eob: nat, start: nat,
    rank: seq<nat>)
  {
    // Every lookup made while resolving a transition is in bounds, and default chains end.
    ghost predicate InBounds() {
      && |ec| == 256 && |chk| == |nxt| && |def| == |base| == |rank|
      && 1 < template <= |base| && template < |accept| && 1 < |meta|
      && (forall b :: 0 <= b < 256 ==> ec[b] < |meta|)
      && (forall c :: 0 <= c < |meta| ==> meta[c] < |meta|)
      && (forall s, c :: 1 <= s < |base| && 0 <= c < |meta| ==> EntryInBounds(s, c))
      && (forall s :: 1 <= s < template ==> RulesInBounds(s))
    }

    ghost predicate EntryInBounds(s: nat, c: nat) {
      && s < |base| && base[s] + c < |chk| && |chk| == |nxt| && |def| == |base| == |rank|
      && if chk[base[s] + c] == s then State(nxt[base[s] + c])
         else 1 <= def[s] < |base| && rank[def[s]] < rank[s]
    }

    ghost predicate RulesInBounds(s: nat) {
      s + 1 < |accept| && 1 <= accept[s] <= accept[s + 1] <= |acclist|
    }

    predicate State(s: nat) { 1 <= s < template }

    // The transition loop of yylex: follow defaults until the entry belongs to the state.
    function Next(s: nat, c: nat): (r: nat)
      requires InBounds() && 1 <= s < |base| && c < |meta|
      ensures State(r)
      decreases rank[s]
    {
      assert EntryInBounds(s, c);
      if chk[base[s] + c] == s then nxt[base[s] + c]
      else Next(def[s], if def[s] >= template then meta[c] else c)
    }

    predicate Dead(s: nat)
      requires InBounds() && State(s)
    {
      base[s] == jamBase
    }

    predicate Accepting(s: nat)
      requires InBounds() && State(s)
    {
      assert RulesInBounds(s);
      accept[s] != 0 && accept[s] < accept[s + 1]
    }

    // The first rule of an accepting state's list.
    function Rule(s: nat): int
      requires InBounds() && State(s) && Accepting(s)
    {
      assert RulesInBounds(s);
      acclist[accept[s]]
    }

    // The class of an input character: class 0 is the sentinel's, a NUL read from the file has class 1.
    function Class(b: Byte): (c: nat)
      requires InBounds()
      ensures c < |meta|
    {
      if b == 0 then 1 else ec[b as int]
    }

    // What flex guarantees of the tables it writes.
    ghost predicate Wf() {
      && InBounds()
      && State(jam) && State(eob) && State(start)
      && ec[0] == 0 && (forall b :: 1 <= b < 256 ==> 1 <= ec[b])
      // Only the sentinel leads to the end-of-buffer state, and it does so from every other state.
      && (forall s {:trigger Next(s, 0)} :: State(s) && s != eob ==> Next(s, 0) == eob)
      && (forall s, c {:trigger Next(s, c)} :: State(s) && 1 <= c < |meta| ==> Next(s, c) != eob)
      && (forall c :: 0 <= c < |meta| ==> Next(eob, c) == jam)
      && !Dead(eob) && Accepting(eob) && Rule(eob) == END_OF_BUFFER
      && (forall s {:trigger Rule(s)} :: State(s) && s != eob && Accepting(s) ==> Rule(s) != END_OF_BUFFER)
      // Dead states jam on every input character, and jamming matches nothing.
      && (forall s, c {:trigger Next(s, c)} :: State(s) && Dead(s) && 1 <= c < |meta| ==> Next(s, c) == jam)
      && Dead(jam) && !Accepting(jam)
      // Every single character matches some rule, if only the default one.
      && start != eob && !Dead(start)
      && (forall c :: 1 <= c < |meta| ==> Accepting(Next(start, c)))
      // Rules are listed in increasing order.
      && (forall s {:trigger RulesIncrease(s)} :: State(s) ==> RulesIncrease(s))
    }

    ghost predicate RulesIncrease(s: nat)
      requires RulesInBounds(s)
    {
      forall i, j :: accept[s] <= i < j < accept[s + 1] ==> acclist[i] < acclist[j]
    }

    // The state after a text.
    function Run(text: seq<Byte>): (s: nat)
      requires InBounds() && State(start)
      ensures State(s)
    {
      if text == [] then start else Next(Run(text[..|text| - 1]), Class(text[|text| - 1]))
    }

    // The longest accepted prefix among the first n characters, 0 if there is none.
    function Longest(text: seq<Byte>, n: nat): (k: nat)
      requires InBounds() && State(start) && n <= |text|
      ensures k <= n
    {
      if n == 0 || Accepting(Run(text[..n])) then n else Longest(text, n - 1)
    }

    // The length of the next token of a text.
    function Match(text: seq<Byte>): (k: nat)
      requires InBounds() && State(start)
      ensures k <= |text|
    {
      Longest(text, |text|)
    }

    // Longest-match, first-rule tokenization of a whole text.
    function Tokenize(text: seq<Byte>): seq<Token>
      requires Wf()
    {
      if text == [] then [] else
        NextTokenAccepted(text);
        var k := Match(text);
        [Token(Rule(Run(text[..k])), text[..k])] + Tokenize(text[k..])
    }

    lemma {:induction false} LongestIsLongest(text: seq<Byte>, n: nat)
      requires InBounds() && State(start) && n <= |text|
      ensures var k := Longest(text, n);
              && (k > 0 ==> Accepting(Run(text[..k])))
              && forall m {:trigger Accepting(Run(text[..m]))} :: k < m <= n ==> !Accepting(Run(text[..m]))
    {
      if n != 0 && !Accepting(Run(text[..n])) {
        LongestIsLongest(text, n - 1);
      }
    }

    lemma {:induction false} LongestUnique(text: seq<Byte>, n: nat, k: nat)
      requires InBounds() && State(start) && k <= n <= |text|
      requires 0 < k && Accepting(Run(text[..k]))
      requires forall m {:trigger Accepting(Run(text[..m]))} :: k < m <= n ==> !Accepting(Run(text[..m]))
      ensures Longest(text, n) == k
    {
      if k < n {
        LongestUnique(text, n - 1, k);
      }
    }

    lemma {:induction false} FirstCharacterAccepted(text: seq<Byte>)
      requires Wf() && text != []
      ensures Accepting(Run(text[..1]))
    {
      assert text[..1][..0] == [];
      assert Run(text[..1]) == Next(start, Class(text[0]));
    }

    // Every nonempty text has a next token, of at least one character.
    lemma {:induction false} NextTokenAccepted(text: seq<Byte>)
      requires Wf() && text != []
      ensures 1 <= Match(text) <= |text| && Accepting(Run(text[..Match(text)]))
    {
      FirstCharacterAccepted(text);
      LongestIsLongest(text, |text|);
    }

    // The rule of a token is the least of those that match its text.
    lemma {:induction false} RuleIsFirst(s: nat, i: nat)
      requires Wf() && State(s) && RulesInBounds(s) && accept[s] <= i < accept[s + 1]
      ensures Accepting(s) && Rule(s) <= acclist[i]
    {
      assert RulesIncrease(s);
    }

    lemma {:induction false} RunSnoc(text: seq<Byte>, b: Byte)
      requires InBounds() && State(start)
      ensures Run(text + [b]) == Next(Run(text), Class(b))
    {
      assert (text + [b])[..|text|] == text;
    }

    lemma {:induction false} RunNeverEob(text: seq<Byte>)
      requires Wf()
      ensures Run(text) != eob
    {
      if text != [] {
        RunNeverEob(text[..|text| - 1]);
      }
    }

    // Once dead, the run stays dead and accepts nothing more.
    lemma {:induction false} DeadForever(text: seq<Byte>, j: nat, m: nat)
      requires Wf() && j < m <= |text| && Dead(Run(text[..j]))
      ensures Run(text[..m]) == jam
      decreases m
    {
      assert text[..m][..m - 1] == text[..m - 1];
      if j < m - 1 {
        DeadForever(text, j, m - 1);
      }
    }

    // ---------------------------------------------------------------------------
    // The uncompressed tables
    // ---------------------------------------------------------------------------

    // The state and class that a state leaves a class to when the entry is not its own: its default
    // state, and if that is a template the meta class.
    ghost predicate Leaves(s: nat, c: nat, s': nat, c': nat)
      requires InBounds() && 1 <= s < |base| && c < |meta|
    {
      assert EntryInBounds(s, c);
      chk[base[s] + c] != s && s' == def[s] && (s' >= template ==> c' == meta[c]) && (s' < template ==> c' == c)
    }

    // The states and classes that are looked up one after the other.
    ghost predicate Chain(chain: seq<(nat, nat)>)
      requires InBounds()
    {
      && chain != []
      && (forall i {:trigger chain[i]} :: 0 <= i < |chain| ==> 1 <= chain[i].0 < |base| && chain[i].1 < |meta|)
      && (forall i :: 0 < i < |chain| ==> Leaves(chain[i - 1].0, chain[i - 1].1, chain[i].0, chain[i].1))
    }

    // The last of them has the entry, for the state that is next.
    ghost predicate Resolves(s: nat, c: nat, chain: seq<(nat, nat)>, r: nat)
      requires InBounds()
    {
      && Chain(chain) && chain[0] == (s, c)
      && var (d, k) := chain[|chain| - 1];
         && EntryInBounds(d, k) && chk[base[d] + k] == d && r == nxt[base[d] + k]
    }

    lemma {:induction false} ResolvesNext(s: nat, c: nat, chain: seq<(nat, nat)>, r: nat)
      requires InBounds() && 1 <= s < |base| && c < |meta| && Resolves(s, c, chain, r)
      ensures Next(s, c) == r
      decreases |chain|
    {
      if |chain| > 1 {
        var rest := chain[1..];
        assert Leaves(chain[0].0, chain[0].1, chain[1].0, chain[1].1);
        assert forall i :: 0 < i < |rest| ==> rest[i - 1] == chain[i] && rest[i] == chain[i + 1];
        ResolvesNext(rest[0].0, rest[0].1, rest, r);
      }
    }

    // A row for every state, templates too: its own entries, and those of its default state.
    ghost predicate Uncompressed(dense: seq<seq<nat>>)
      requires InBounds()
    {
      && |dense| == |base| && (forall s :: 0 <= s < |dense| ==> |dense[s]| == |meta|)
      && forall s, c {:trigger EntryInBounds(s, c)} :: 1 <= s < |base| && 0 <= c < |meta| ==> RowOk(dense, s, c)
    }

    ghost predicate RowOk(dense: seq<seq<nat>>, s: nat, c: nat)
      requires InBounds() && |dense| == |base| && forall s :: 0 <= s < |dense| ==> |dense[s]| == |meta|
      requires 1 <= s < |base| && c < |meta|
    {
      && (EntryInBounds(s, c) && chk[base[s] + c] == s ==> dense[s][c] == nxt[base[s] + c])
      && forall s', c' :: 0 <= s' < |base| && 0 <= c' < |meta| && Leaves(s, c, s', c') ==> dense[s][c] == dense[s'][c']
    }

    lemma {:induction false} DenseNext(dense: seq<seq<nat>>, s: nat, c: nat)
      requires InBounds() && Uncompressed(dense) && 1 <= s < |base| && c < |meta|
      ensures dense[s][c] == Next(s, c)
      decreases rank[s]
    {
      assert EntryInBounds(s, c) && RowOk(dense, s, c);
      if chk[base[s] + c] != s {
        var s', c' := def[s], if def[s] >= template then meta[c] else c;
        assert Leaves(s, c, s', c');
        DenseNext(dense, s', c');
      }
    }

    // There are such rows.
    lemma {:induction false} SomeDense() returns (dense: seq<seq<nat>>)
      requires InBounds()
      ensures Uncompressed(dense)
    {
      dense := seq(|base|, s requires 0 <= s < |base| =>
        seq(|meta|, c requires 0 <= c < |meta| => if s == 0 then 0 else Next(s, c)));
      forall s, c | 1 <= s < |base| && 0 <= c < |meta|
        ensures RowOk(dense, s, c)
      {
        assert EntryInBounds(s, c);
      }
    }

    // The state after a text.
    ghost function DenseRun(dense: seq<seq<nat>>, text: seq<Byte>): (s: nat)
      requires InBounds() && State(start) && Uncompressed(dense)
      ensures State(s)
    {
      if text == [] then start
      else
        var s, b := DenseRun(dense, text[..|text| - 1]), text[|text| - 1];
        var c := if b == 0 then 1 else ec[b as int];
        DenseNext(dense, s, c);
        dense[s][c]
    }

    lemma {:induction false} DenseRunIs(dense: seq<seq<nat>>, text: seq<Byte>)
      requires InBounds() && State(start) && Uncompressed(dense)
      ensures DenseRun(dense, text) == Run(text)
    {
      if text != [] {
        DenseRunIs(dense, text[..|text| - 1]);
        DenseNext(dense, Run(text[..|text| - 1]), Class(text[|text| - 1]));
      }
    }

    // The rules that a text matches are those listed for the state after it.
    ghost predicate Matches(dense: seq<seq<nat>>, text: seq<Byte>, rule: int)
      requires InBounds() && State(start) && Uncompressed(dense)
    {
      var s := DenseRun(dense, text);
      RulesInBounds(s) && exists i :: accept[s] <= i < accept[s + 1] && acclist[i] == rule
    }

    lemma {:induction false} MatchesIs(dense: seq<seq<nat>>, text: seq<Byte>)
      requires Wf() && Uncompressed(dense)
      ensures (exists rule :: Matches(dense, text, rule)) <==> Accepting(Run(text))
      ensures Accepting(Run(text)) ==>
                && Matches(dense, text, Rule(Run(text)))
                && forall rule :: Matches(dense, text, rule) ==> Rule(Run(text)) <= rule
    {
      DenseRunIs(dense, text);
      var s := Run(text);
      assert RulesInBounds(s);
      if Accepting(s) {
        assert acclist[accept[s]] == Rule(s) && Matches(dense, text, Rule(s));
        forall rule | Matches(dense, text, rule)
          ensures Rule(s) <= rule
        {
          var i :| accept[s] <= i < accept[s + 1] && acclist[i] == rule;
          RuleIsFirst(s, i);
        }
      }
    }

    // Tokens that cover a text: each the longest prefix of what is left that matches a rule, with the
    // first rule that it matches.
    ghost predicate LongestFirst(dense: seq<seq<nat>>, text: seq<Byte>, tokens: seq<Token>)
      requires InBounds() && State(start) && Uncompressed(dense)
    {
      if tokens == [] then text == []
      else
        var token := tokens[0];
        && 1 <= |token.text| <= |text| && token.text == text[..|token.text|]
        && Matches(dense, token.text, token.rule)
        && (forall rule :: Matches(dense, token.text, rule) ==> token.rule <= rule)
        && (forall m, rule {:trigger Matches(dense, text[..m], rule)} ::
              |token.text| < m <= |text| ==> !Matches(dense, text[..m], rule))
        && LongestFirst(dense, text[|token.text|..], tokens[1..])
    }

    lemma {:induction false} TokenizeLongestFirst(dense: seq<seq<nat>>, text: seq<Byte>)
      requires Wf() && Uncompressed(dense)
      ensures LongestFirst(dense, text, Tokenize(text))
      decreases |text|
    {
      if text != [] {
        TokenizeStep(text);
        var k := Match(text);
        MatchesIs(dense, text[..k]);
        forall m, rule | k < m <= |text|
          ensures !Matches(dense, text[..m], rule)
        {
          LongestIsLongest(text, |text|);
          MatchesIs(dense, text[..m]);
        }
        TokenizeLongestFirst(dense, text[k..]);
        assert Tokenize(text)[1..] == Tokenize(text[k..]);
      }
    }

    lemma {:induction false} FirstUnique(dense: seq<seq<nat>>, text: seq<Byte>, token: Token)
      requires Wf() && Uncompressed(dense) && text != []
      requires 1 <= |token.text| <= |text| && token.text == text[..|token.text|]
      requires Matches(dense, token.text, token.rule)
      requires forall rule :: Matches(dense, token.text, rule) ==> token.rule <= rule
      requires forall m, rule {:trigger Matches(dense, text[..m], rule)} ::
                 |token.text| < m <= |text| ==> !Matches(dense, text[..m], rule)
      ensures |token.text| == Match(text) && Accepting(Run(token.text)) && token.rule == Rule(Run(token.text))
    {
      var k, n := |token.text|, Match(text);
      MatchesIs(dense, token.text);
      TokenizeStep(text);
      MatchesIs(dense, text[..n]);
      LongestIsLongest(text, |text|);
      assert !(k < n);
      assert Accepting(Run(text[..k]));
    }

    // There are no others.
    lemma {:induction false} LongestFirstUnique(dense: seq<seq<nat>>, text: seq<Byte>, tokens: seq<Token>)
      requires Wf() && Uncompressed(dense) && LongestFirst(dense, text, tokens)
      ensures tokens == Tokenize(text)
      decreases |tokens|
    {
      if tokens != [] {
        FirstUnique(dense, text, tokens[0]);
        TokenizeStep(text);
        LongestFirstUnique(dense, text[|tokens[0].text|..], tokens[1..]);
        FirstAndRest(tokens, tokens[0], tokens[1..]);
      }
    }

    static lemma {:induction false} FirstAndRest(tokens: seq<Token>, token: Token, rest: seq<Token>)
      requires tokens != [] && token == tokens[0] && rest == tokens[1..]
      ensures tokens == [token] + rest
    {
    }

    // The tokens concatenated are the text.
    lemma {:induction false} TokenizeCovers(text: seq<Byte>)
      requires Wf()
      ensures Concat(Tokenize(text)) == text
      decreases |text|
    {
      if text != [] {
        TokenizeStep(text);
        var k := Match(text);
        TokenizeCovers(text[k..]);
        var token, rest := Token(Rule(Run(text[..k])), text[..k]), Tokenize(text[k..]);
        ConcatCons(token, rest);
        assert text == token.text + text[k..];
      }
    }

    lemma {:induction false} TokenizeStep(text: seq<Byte>)
      requires Wf() && text != []
      ensures 0 < Match(text) <= |text| && Accepting(Run(text[..Match(text)]))
      ensures Tokenize(text) == [Token(Rule(Run(text[..Match(text)])), text[..Match(text)])]
              + Tokenize(text[Match(text)..])
    {
      NextTokenAccepted(text);
    }
  }

  lemma {:induction false} ConcatCons(token: Token, tokens: seq<Token>)
    ensures Concat([token] + tokens) == token.text + Concat(tokens)
  {
    assert ([token] + tokens)[1..] == tokens;
  }

  function Concat(tokens: seq<Token>): seq<Byte> {
    if tokens == [] then [] else tokens[0].text + Concat(tokens[1..])
  }
}
