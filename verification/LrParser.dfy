// The parser driver of bison (thrift/compiler/cpp/thrifty.cc): shift, default and tabled reductions,
// packed gotos, and two stacks that move to larger blocks as they grow.
module LrParser {
  import opened LrTables
  import opened LrItems
  import opened LrLanguage
  import opened LrUnpacked

  // yychar
  datatype Lookahead = Empty | Eof | Kind(kind: nat)

  // YYSTACK_RELOCATE: a block of n elements that starts with the size elements in use.
  method Relocate<T>(from: array<T>, size: nat, n: nat, filler: T) returns (to: array<T>)
    requires size <= from.Length && size <= n
    ensures fresh(to) && to.Length == n && to[..size] == from[..size]
  {
    to := new T[n](_ => filler);
    for i := 0 to size
      invariant to[..i] == from[..i]
    {
      to[i] := from[i];
    }
  }

  class Parser<V(0)> {
    const t: Tables
    const act: (nat, seq<V>) -> V
    const maxDepth: nat
    // What the lexer delivers, and how much of it has been delivered.
    const input: seq<(nat, V)>
    var pos: nat
    // yychar, yystate, yyss, yyvs, yyssp - yyss, yystacksize, yynerrs
    var yychar: Lookahead
    var yystate: nat
    var ss: array<nat>
    var vs: array<V>
    var sp: nat
    var stackSize: nat
    var nerrs: nat
    // A parse tree for every symbol on the stack.
    ghost var trees: seq<Tree<V>>

    // The part of the input that the stack derives: all that was read but the lookahead.
    ghost function Consumed(): seq<(nat, V)>
      reads this
      requires pos <= |input| && (yychar.Kind? ==> 0 < pos)
    {
      input[..if yychar.Kind? then pos - 1 else pos]
    }

    ghost predicate LookaheadOk()
      reads this
    {
      && pos <= |input| && (forall i :: 0 <= i < |input| ==> 0 < input[i].0)
      && (yychar.Eof? ==> pos == |input|)
      && (yychar.Kind? ==> 0 < pos && yychar.kind == input[pos - 1].0)
    }

    ghost predicate Allocated()
      reads this
    {
      t.InBounds() && t.EndsOk() && 1 <= stackSize && ss.Length == vs.Length == stackSize && (ss as object) != vs
    }

    // The textbook machine's configuration in this state.
    ghost function Config(): Config<V>
      reads this, ss, vs
      requires sp < ss.Length && sp < vs.Length && LookaheadOk()
    {
      Running(ss[..sp] + [yystate], vs[1..sp + 1], input[|Consumed()|..])
    }

    // The states spell what their symbols allow, and every value is that of its symbol's tree.
    ghost predicate StackValid()
      reads this, ss, vs
    {
      && Allocated() && |trees| == sp < stackSize
      && t.StackOk(ss[..sp] + [yystate], t.Roots(trees))
      && TreesValid()
    }

    ghost predicate TreesValid()
      reads this, vs
      requires t.InBounds() && |trees| < vs.Length
    {
      forall i {:trigger trees[i]} :: 0 <= i < |trees| ==> t.ValidTree(trees[i]) && vs[i + 1] == Eval(act, trees[i])
    }

    // At yysetstate: the state to store is in yystate, and the trees derive what was consumed.
    ghost predicate Entering()
      reads this, ss, vs
    {
      StackValid() && LookaheadOk() && Yields(trees) == Consumed()
    }

    // At yybackup: it is stored, and there is room for one more.
    ghost predicate Stored()
      reads this, ss, vs
    {
      && Entering() && ss[sp] == yystate && sp + 1 < stackSize
      && t.State(yystate) && yystate != t.final
    }

    constructor (t: Tables, act: (nat, seq<V>) -> V, initDepth: nat, maxDepth: nat, input: seq<(nat, V)>)
      requires t.Consistent() && 1 <= initDepth && forall i :: 0 <= i < |input| ==> 0 < input[i].0
      ensures Entering() && fresh(ss) && fresh(vs) && stackSize == initDepth
      ensures this.t == t && this.act == act && this.input == input && this.maxDepth == maxDepth
      ensures Config() == Running([0], [], input)
    {
      this.t, this.act, this.maxDepth, this.input := t, act, maxDepth, input;
      pos, yychar, yystate, sp, stackSize, nerrs := 0, Empty, 0, 0, initDepth, 0;
      ss := new nat[initDepth];
      vs := new V[initDepth];
      trees := [];
      new;
      t.BottomOk();
      assert ss[..sp] + [yystate] == [0];
      assert t.Roots(trees) == [];
    }

    // yysetstate: store the state, then make room for one more push.
    method SetState() returns (ok: bool)
      requires Entering()
      modifies `ss, `vs, `stackSize, ss
      ensures (ss == old(ss) || fresh(ss)) && (vs == old(vs) || fresh(vs))
      ensures ok ==> Stored() && Config() == old(Config())
      ensures !ok ==> sp + 1 == stackSize && maxDepth <= stackSize
      ensures stackSize == old(stackSize) || stackSize <= maxDepth
    {
      ss[sp] := yystate;
      assert ss[..sp] == old(ss[..sp]);
      ok := true;
      assert Entering() && ss[sp] == yystate;
      t.TopOk(ss[..sp] + [yystate], t.Roots(trees));
      if stackSize - 1 <= sp {
        ghost var states, values := ss[..], vs[..];
        ok := Grow();
        if ok {
          assert ss[..sp] == states[..sp] && ss[sp] == states[sp];
          assert forall i {:trigger trees[i]} :: 0 <= i < |trees| ==> vs[i + 1] == vs[..sp + 1][i + 1] == values[i + 1];
          assert vs[1..sp + 1] == vs[..sp + 1][1..] == values[1..];
        }
      }
    }

    // Both stacks move to blocks twice as large, up to the greatest depth.
    method Grow() returns (ok: bool)
      requires Allocated() && sp + 1 == stackSize
      modifies `ss, `vs, `stackSize
      ensures !ok ==> maxDepth <= stackSize && unchanged(`ss, `vs, `stackSize)
      ensures ok ==> Allocated() && fresh(ss) && fresh(vs) && sp + 1 < stackSize <= maxDepth
      ensures ok ==> ss[..sp + 1] == old(ss[..]) && vs[..sp + 1] == old(vs[..])
    {
      if maxDepth <= stackSize {
        return false;
      }
      var size := sp + 1;
      stackSize := 2 * stackSize;
      if maxDepth < stackSize {
        stackSize := maxDepth;
      }
      var ss1 := Relocate(ss, size, stackSize, 0);
      var vs1 := Relocate(vs, size, stackSize, vs[0]);
      ss, vs := ss1, vs1;
      // The test after growth never aborts.
      assert sp < stackSize - 1;
      ok := true;
    }

    // The lookahead's symbol number, yytoken.
    function Symbol(): (symbol: nat)
      reads this
      requires t.InBounds() && LookaheadOk() && !yychar.Empty?
      ensures symbol < t.ntokens && (symbol == 0 <==> yychar.Eof?)
      ensures symbol == t.Peek(input[|Consumed()|..])
      ensures yychar.Kind? ==>
                symbol == if yychar.kind < |t.translate| then t.translate[yychar.kind] else t.undefToken
    {
      if yychar.Eof? then 0 else t.Translate(yychar.kind)
    }

    // YYLEX
    method Lex()
      requires LookaheadOk() && yychar.Empty?
      modifies `yychar, `pos
      ensures LookaheadOk() && !yychar.Empty?
      ensures Consumed() == old(Consumed())
    {
      if pos < |input| {
        yychar, pos := Kind(input[pos].0), pos + 1;
      } else {
        yychar := Eof;
      }
    }

    // yybackup: what to do in the current state, reading a lookahead if the state needs one.
    method Backup() returns (a: Action)
      requires Stored()
      modifies `yychar, `pos
      ensures Stored() && Config() == old(Config()) && a == t.Lookup(yystate, t.Peek(Config().rest))
      ensures a.Shift? || a.Accept? ==> !yychar.Empty?
    {
      var n := t.pact[yystate];
      if n == t.pactNinf {
        a := t.Default(yystate);
        return;
      }
      if yychar.Empty? {
        Lex();
      }
      var symbol := Symbol();
      n := n + symbol;
      if n < 0 || |t.table| <= n || t.check[n] != symbol {
        a := t.Default(yystate);
      } else {
        n := t.table[n];
        if n <= 0 {
          a := if n == 0 || n == t.tableNinf then Error else Reduce(-n);
        } else {
          a := if n == t.final then Accept else Shift(n);
        }
      }
    }

    // Shift the lookahead.
    method DoShift(state: nat)
      requires Stored() && yychar.Kind? && t.EntersOk(yystate, t.Peek(Config().rest), state)
      modifies `yychar, `yystate, `sp, `trees, vs
      ensures Entering() && t.Shifted(old(Config()), state) == Config()
    {
      ghost var leaf := Leaf(yychar.kind, input[pos - 1].1);
      YieldsSnoc(trees, leaf);
      NoneCut(trees);
      TakeOne(input, pos - 1);
      PopPush(0, input[pos - 1].1, state, leaf);
      yychar := Empty;
    }

    static lemma {:induction false} NoneCut(trees: seq<Tree<V>>)
      ensures trees[..|trees|] == trees
    {
    }

    static lemma {:induction false} TakeOne(s: seq<(nat, V)>, n: nat)
      requires n < |s|
      ensures s[..n] + [s[n]] == s[..n + 1] && s[n..][1..] == s[n + 1..]
    {
    }

    // yyreduce: replace the handle's values by the action's result and take the goto.
    method DoReduce(rule: nat)
      requires Stored() && HandleOnTop(rule)
      modifies `yystate, `sp, `trees, vs
      ensures Entering() && t.Reduced(act, old(Config()), rule) == Config()
    {
      var len := t.r2[rule];
      var value := act(rule, vs[sp + 1 - len..sp + 1]);
      ghost var node := HandleReduced(rule, value);
      PopPush(len, value, t.Goto(ss[sp - len], t.r1[rule]), node);
    }

    // What the rule makes of its handle, as a tree and in the machine's terms.
    lemma {:induction false} HandleReduced(rule: nat, value: V) returns (node: Tree<V>)
      requires Stored() && HandleOnTop(rule) && value == act(rule, vs[sp + 1 - t.r2[rule]..sp + 1])
      ensures t.ValidTree(node) && t.Root(node) == t.r1[rule] && Eval(act, node) == value
      ensures Yields(trees[..sp - t.r2[rule]] + [node]) == Yields(trees)
      ensures var len := t.r2[rule];
              t.Reduced(act, Config(), rule) == Popped(Config(), len, t.Goto(ss[sp - len], t.r1[rule]), value)
    {
      var c, n := Config(), sp - t.r2[rule];
      node := Node(rule, trees[n..]);
      assert c.states[n] == ss[n] && c.values[n..] == vs[n + 1..sp + 1];
      HandleFits(t, act, rule, trees, c.values, n);
      NodeYield(trees, n, rule);
      ReducedPops(c, rule);
    }

    // Pop len entries, push a value and enter a state.
    method PopPush(len: nat, value: V, state: nat, ghost tree: Tree<V>)
      requires Stored() && len <= sp && t.State(ss[sp - len]) && t.EntersOk(ss[sp - len], t.Root(tree), state)
      requires t.ValidTree(tree) && value == Eval(act, tree)
      modifies `yystate, `sp, `trees, vs
      ensures StackValid() && trees == old(trees[..sp - len]) + [tree]
      ensures LookaheadOk() && Consumed() == old(Consumed())
      ensures Config() == Popped(old(Config()), len, state, value)
    {
      ghost var c := Config();
      PushTree(sp - len, tree, state);
      ghost var n := sp - len;
      sp := sp - len;
      vs[sp + 1] := value;
      trees := trees[..n] + [tree];
      yystate := state;
      sp := sp + 1;
      assert ss[..sp] == c.states[..n + 1] && vs[1..sp + 1] == c.values[..n] + [value];
    }

    static ghost function Popped(c: Config<V>, len: nat, state: nat, value: V): Config<V>
      requires c.Running? && len <= |c.values| && |c.states| == |c.values| + 1
    {
      var n := |c.values| - len;
      Running(c.states[..n + 1] + [state], c.values[..n] + [value], c.rest)
    }

    // A reduction in terms of what is popped and pushed.
    lemma {:induction false} ReducedPops(c: Config<V>, rule: nat)
      requires t.InBounds() && c.Running? && |c.states| == |c.values| + 1
      requires t.Rule(rule) && t.RuleInBounds(rule) && t.r2[rule] <= |c.values|
      requires 0 <= t.Goto(c.states[|c.values| - t.r2[rule]], t.r1[rule])
      ensures var n := |c.values| - t.r2[rule];
              t.Reduced(act, c, rule) == Popped(c, t.r2[rule], t.Goto(c.states[n], t.r1[rule]),
                                                act(rule, c.values[n..]))
    {
    }

    // The stack cut to its first n symbols, with a tree pushed on it in the state its root leads to.
    lemma {:induction false} PushTree(n: nat, tree: Tree<V>, state: nat)
      requires Stored() && n <= sp && t.State(ss[n]) && t.EntersOk(ss[n], t.Root(tree), state)
      ensures t.StackOk(ss[..n + 1] + [state], t.Roots(trees[..n] + [tree]))
    {
      var states, roots := ss[..sp] + [yystate], t.Roots(trees);
      t.PopOk(states, roots, sp - n);
      assert states[..n + 1] == ss[..n + 1] && roots[..n] == t.Roots(trees[..n]);
      t.PushOk(ss[..n + 1], roots[..n], t.Root(tree), state);
      assert t.Roots(trees[..n] + [tree]) == roots[..n] + [t.Root(tree)];
    }

    // The top of the stack spells a rule's right-hand side, and the state below it has a goto.
    ghost predicate HandleOnTop(rule: nat)
      reads this, ss
      requires t.InBounds() && sp < ss.Length && |trees| == sp
    {
      && t.Rule(rule) && t.RuleInBounds(rule)
      && var len := t.r2[rule];
         && len <= sp && t.Roots(trees)[sp - len..] == t.rhs[rule]
         && t.State(ss[sp - len]) && t.EntersOk(ss[sp - len], t.r1[rule], t.Goto(ss[sp - len], t.r1[rule]))
    }

    // So it is where a rule is to be reduced.
    lemma {:induction false} FindHandle(rule: nat)
      requires Stored() && t.ReducesOk(yystate, rule)
      ensures HandleOnTop(rule)
    {
      var states, roots := ss[..sp] + [yystate], t.Roots(trees);
      t.ReductionFindsHandle(states, roots, rule);
      assert states[sp - |t.rhs[rule]|] == ss[sp - |t.rhs[rule]|];
    }

    // yyerrlab, yyerrlab1: report, then pop until some state shifts the error token. None does.
    method Recover()
      requires t.Consistent() && Stored() && t.errorToken != 0
      modifies `nerrs, `sp, `yystate
      ensures sp == 0 && nerrs == old(nerrs) + 1
    {
      ghost var states, roots := ss[..sp] + [yystate], t.Roots(trees);
      nerrs := nerrs + 1;
      while true
        invariant sp < |states| && yystate == states[sp] && sp < ss.Length && nerrs == old(nerrs) + 1
        invariant forall i :: 0 <= i < |states| ==> ss[i] == states[i]
        decreases sp
      {
        assert t.Known(states, roots, sp);
        var n := t.pact[yystate];
        if n != t.pactNinf {
          n := n + t.errorToken;
          if 0 <= n < |t.table| && t.check[n] == t.errorToken {
            NoErrorShift(yystate);
            n := t.table[n];
            if 0 < n {
              assert false;
            }
          }
        }
        if sp == 0 {
          return;
        }
        sp := sp - 1;
        yystate := ss[sp];
      }
    }

    // No state shifts the error token.
    lemma {:induction false} NoErrorShift(s: nat)
      requires t.Consistent() && t.errorToken != 0 && t.State(s) && s != t.final
      requires t.pact[s] != t.pactNinf
      requires var n := t.pact[s] + t.errorToken; 0 <= n < |t.table| && t.check[n] == t.errorToken
      ensures t.table[t.pact[s] + t.errorToken] <= 0
    {
      assert t.StateOk(s);
      var a := t.Lookup(s, t.errorToken);
      assert t.ActionOk(s, t.errorToken, a);
      var symbols := t.past[s] + [t.errorToken];
      assert symbols[|symbols| - 1] == t.errorToken && t.past[t.final][1] == 0;
    }

    // A parse tree of the whole input, whose value is the given one.
    ghost predicate ParseOf(tree: Tree<V>, value: V)
      requires t.InBounds()
    {
      t.ValidTree(tree) && t.Root(tree) == t.startSymbol && Yield(tree) == input && value == Eval(act, tree)
    }

    // What yybackup found is done, or ends the parse.
    method Act(a: Action) returns (out: Outcome<V>, ghost tree: Tree<V>)
      requires t.Consistent() && t.errorToken != 0
      requires Stored() && (a.Shift? || a.Accept? ==> !yychar.Empty?)
      requires a == t.Lookup(yystate, t.Peek(Config().rest))
      modifies this, vs
      ensures ss == old(ss) && vs == old(vs) && !out.Exhausted?
      ensures out.Unfinished? ==> Entering() && Config() == t.Next(act, old(Config()))
      ensures !out.Unfinished? ==> t.Next(act, old(Config())) == Stopped(out)
      ensures out.Accepted? ==> ParseOf(tree, out.value)
    {
      tree := Node(0, []);
      assert t.StateOk(yystate);
      assert t.ActionOk(yystate, t.Peek(Config().rest), a);
      match a {
        case Shift(state) =>
          DoShift(state);
          out := Unfinished;
        case Reduce(rule) =>
          FindHandle(rule);
          DoReduce(rule);
          out := Unfinished;
        case Error =>
          Recover();
          out := Aborted;
        case Accept =>
          tree := AcceptedTree();
          out := Accepted(vs[sp]);
      }
    }

    // One turn of the loop from yynewstate.
    method Turn() returns (out: Outcome<V>, ghost tree: Tree<V>)
      requires t.Consistent() && Entering() && t.errorToken != 0
      modifies this, ss, vs
      ensures out.Unfinished? ==> Entering() && Config() == t.Next(act, old(Config()))
      ensures (ss == old(ss) || fresh(ss)) && (vs == old(vs) || fresh(vs))
      ensures out.Accepted? || out.Aborted? ==> t.Next(act, old(Config())) == Stopped(out)
      ensures out.Accepted? ==> ParseOf(tree, out.value)
      ensures out.Exhausted? ==> maxDepth <= stackSize == sp + 1
    {
      tree := Node(0, []);
      var ok := SetState();
      if !ok {
        return Exhausted, tree;
      }
      var a := Backup();
      out, tree := Act(a);
    }

    // yyparse
    method Parse() returns (out: Outcome<V>, ghost tree: Tree<V>)
      requires t.Descending() && Entering() && t.errorToken != 0
      modifies this, ss, vs
      ensures !out.Unfinished? && Ended(old(Config()), out, tree)
    {
      ghost var start := Config();
      ghost var left := t.Steps(start);
      t.StartAhead(act, start);
      while true
        invariant (ss == old(ss) || fresh(ss)) && (vs == old(vs) || fresh(vs))
        invariant Entering() && t.Ahead(act, start, Config(), left)
        decreases left
      {
        out, tree := TurnAhead(start, left);
        if !out.Unfinished? {
          return;
        }
        left := left - 1;
      }
    }

    // How a run from the start can end: as the machine's, with a parse tree if it accepts, or at the
    // greatest depth.
    ghost predicate Ended(start: Config<V>, out: Outcome<V>, tree: Tree<V>)
      reads this
      requires t.Descending() && start.Running? && |start.states| == |start.values| + 1
    {
      match out
      case Accepted(value) => ParseOf(tree, value) && out == t.Run(act, start, t.Steps(start))
      case Aborted => out == t.Run(act, start, t.Steps(start))
      case Exhausted => maxDepth <= stackSize == sp + 1
      case Unfinished => true
    }

    // One turn more of a run.
    method TurnAhead(ghost start: Config<V>, ghost left: nat) returns (out: Outcome<V>, ghost tree: Tree<V>)
      requires t.Descending() && Entering() && t.errorToken != 0
      requires start.Running? && |start.states| == |start.values| + 1 && t.Ahead(act, start, Config(), left)
      modifies this, ss, vs
      ensures 0 < left && (ss == old(ss) || fresh(ss)) && (vs == old(vs) || fresh(vs))
      ensures if out.Unfinished? then Entering() && t.Ahead(act, start, Config(), left - 1) else Ended(start, out, tree)
    {
      t.StepAhead(act, start, Config(), t.Roots(trees), left);
      out, tree := Turn();
    }

    // On accepting, the stack holds one tree, of the whole input.
    lemma {:induction false} AcceptedTree() returns (tree: Tree<V>)
      requires Stored() && !yychar.Empty? && t.State(t.final) && t.Fits(yystate, t.Peek(Config().rest), t.final)
      ensures sp == 1 && t.ValidTree(tree) && t.Root(tree) == t.startSymbol
      ensures Yield(tree) == input && vs[sp] == Eval(act, tree)
    {
      t.AcceptsStartOnly(ss[..sp] + [yystate], t.Roots(trees), t.Peek(Config().rest));
      assert |t.Roots(trees)| == 1 && t.Roots(trees)[0] == t.Root(trees[0]);
      tree := trees[0];
      assert Yields(trees) == Yields(trees[..0]) + Yield(tree);
      assert input[..pos] == input;
    }
  }

  // A whole parse by a fresh parser: whatever is accepted is in the language of the grammar, with a parse
  // tree over exactly the input, and when the tables leave nothing out, all of the language is accepted
  // with the values of the trees.
  method ParseInput<V(0)>(t: Tables, act: (nat, seq<V>) -> V, initDepth: nat, maxDepth: nat, input: seq<(nat, V)>)
    returns (out: Outcome<V>)
    requires t.Descending() && t.errorToken != 0 && 1 <= initDepth
    requires forall i :: 0 <= i < |input| ==> 0 < input[i].0
    ensures !out.Unfinished?
    ensures var start := Running([0], [], input); !out.Exhausted? ==> out == t.Run(act, start, t.Steps(start))
    ensures out.Accepted? ==> exists tree: Tree<V> :: ParseTree(t, tree, input) && Eval(act, tree) == out.value
    ensures !out.Exhausted? ==>
              forall items: Items, tree: Tree<V> :: items.Complete(t) && ParseTree(t, tree, input) ==>
                out == Accepted(Eval(act, tree))
    ensures !out.Exhausted? ==>
              forall u: Unpacked :: u.Of(t) ==>
                var start := Running([0], [], input); out == u.Run(t, act, start, t.Steps(start))
    ensures out.Accepted? ==> InLanguage(t, input)
    ensures !out.Exhausted? && (exists items: Items :: items.Complete(t)) ==>
              (out.Accepted? <==> InLanguage(t, input))
  {
    var parser := new Parser<V>(t, act, initDepth, maxDepth, input);
    ghost var tree;
    out, tree := parser.Parse();
    assert out.Accepted? ==> ParseTree(t, tree, input);
    forall items: Items, tree: Tree<V> | items.Complete(t) && ParseTree(t, tree, input)
      ensures !out.Exhausted? ==> out == Accepted(Eval(act, tree))
    {
      TreeAccepted(t, items, act, tree, input);
    }
    TreesAreDerivations(t, input);
    ghost var start := Running([0], [], input);
    forall u: Unpacked | u.Of(t)
      ensures !out.Exhausted? ==> out == u.Run(t, act, start, t.Steps(start))
    {
      SameOutcome(t, u, act, input, t.Steps(start));
    }
  }

  // YYSTACK_BYTES and YYSTACK_RELOCATE: in a block for n elements the state stack comes first, and
  // the value stack starts at a multiple of the union's size.
  function BlockBytes(n: nat, stateSize: nat, valueSize: nat, unionSize: nat): nat
    requires 0 < unionSize
  {
    n * (stateSize + valueSize) + unionSize - 1
  }

  function ValuesStart(n: nat, stateSize: nat, unionSize: nat): nat
    requires 0 < unionSize
  {
    unionSize * ((n * stateSize + unionSize - 1) / unionSize)
  }

  // They do not overlap, and fit.
  lemma {:induction false} StacksFitBlock(n: nat, stateSize: nat, valueSize: nat, unionSize: nat)
    requires 0 < unionSize
    ensures n * stateSize <= ValuesStart(n, stateSize, unionSize)
    ensures exists q :: ValuesStart(n, stateSize, unionSize) == unionSize * q
    ensures ValuesStart(n, stateSize, unionSize) + n * valueSize <= n * (stateSize + valueSize) + (unionSize - 1)
    ensures BlockBytes(n, stateSize, valueSize, unionSize) == n * (stateSize + valueSize) + (unionSize - 1)
  {
    var x := n * stateSize + unionSize - 1;
    var q := x / unionSize;
    assert x == unionSize * q + x % unionSize;
    assert n * (stateSize + valueSize) == n * stateSize + n * valueSize;
  }

  lemma {:induction false} FewerBytes(size: nat, n: nat, elemSize: nat)
    requires size <= n
    ensures size * elemSize <= n * elemSize
  {
  }

  // YYCOPY, byte by byte.
  method CopyBytes<T>(from: array<T>, i: nat, to: array<T>, j: nat, count: nat)
    requires i + count <= from.Length && j + count <= to.Length && from != to
    modifies to
    ensures to[j..j + count] == from[i..i + count]
    ensures to[..j] == old(to[..j]) && to[j + count..] == old(to[j + count..])
  {
    for k := 0 to count
      invariant forall m :: j <= m < j + k ==> to[m] == from[m - j + i]
      invariant forall m :: 0 <= m < j || j + k <= m < to.Length ==> to[m] == old(to[m])
    {
      to[j + k] := from[i + k];
    }
  }

  // Both stacks move into one new block, from wherever they are: the first time from two arrays, then
  // from one block. The second copy leaves what the first has put there.
  method RelocateStacks<T>(states: array<T>, i: nat, values: array<T>, j: nat, size: nat, n: nat, stateSize: nat,
                           valueSize: nat, unionSize: nat, filler: T)
    returns (block: array<T>)
    requires 0 < unionSize && size <= n
    requires i + size * stateSize <= states.Length && j + size * valueSize <= values.Length
    ensures fresh(block) && block.Length == BlockBytes(n, stateSize, valueSize, unionSize)
    ensures size * stateSize <= block.Length && block[..size * stateSize] == states[i..i + size * stateSize]
    ensures var start := ValuesStart(n, stateSize, unionSize);
            && start + size * valueSize <= block.Length
            && block[start..start + size * valueSize] == values[j..j + size * valueSize]
  {
    StacksFitBlock(n, stateSize, valueSize, unionSize);
    FewerBytes(size, n, stateSize);
    FewerBytes(size, n, valueSize);
    block := new T[BlockBytes(n, stateSize, valueSize, unionSize)](_ => filler);
    var start := ValuesStart(n, stateSize, unionSize);
    CopyBytes(states, i, block, 0, size * stateSize);
    ghost var first := block[..start];
    CopyBytes(values, j, block, start, size * valueSize);
    assert block[..size * stateSize] == first[..size * stateSize];
  }
}
