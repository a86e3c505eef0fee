// Bison's packed parsing tables (thrift/compiler/cpp/thrifty.cc), and a static check under which
// every stack the driver can build spells a right-hand side wherever it reduces.
module LrTables {
  datatype Action = Shift(state: int) | Reduce(rule: int) | Accept | Error

  datatype Tree<V> = Leaf(kind: nat, value: V) | Node(rule: nat, children: seq<Tree<V>>)

  // The textbook LR machine: the states and the values on its stack, and the tokens still to read.
  datatype Config<V> = Running(states: seq<nat>, values: seq<V>, rest: seq<(nat, V)>) | Stopped(outcome: Outcome<V>)

  datatype Outcome<V> = Accepted(value: V) | Aborted | Exhausted | Unfinished

  // The arrays and constants of the same name without their yy prefix; rhs are the right-hand
  // sides of the grammar's rules, whose lengths are r2 and whose left-hand sides are r1. past and
  // below are the certificate: the symbols known to be on top of the stack in a state, deepest
  // first, and the states that can lie under each of them. rank bounds, for a state and the next
  // token, how many reductions can follow each other; maxRank bounds the ranks.
  datatype Tables = Tables(
    pact: seq<int>, defact: seq<nat>, pgoto: seq<int>, defgoto: seq<int>, table: seq<int>, check: seq<int>,
    r1: seq<nat>, r2: seq<nat>, translate: seq<nat>, ntokens: nat, pactNinf: int, tableNinf: int, final: nat,
    undefToken: nat, errorToken: nat,
    rhs: seq<seq<nat>>, startSymbol: nat, past: seq<seq<nat>>, below: seq<seq<set<nat>>>,
    rank: seq<seq<nat>>, maxRank: nat)
  {
    ghost predicate InBounds() {
      && |defact| == |pact| == |past| == |below| && 0 < |pact|
      && |check| == |table| && |defgoto| == |pgoto|
      && |r1| == |r2| == |rhs|
      && undefToken < ntokens && 0 < undefToken && errorToken < ntokens
      && (forall x :: 0 <= x < |translate| ==> translate[x] < ntokens && (0 < x ==> 0 < translate[x]))
      && (forall r :: 0 <= r < |r1| ==> RuleInBounds(r))
      && (forall s :: 0 <= s < |past| ==> |past[s]| == |below[s]|)
    }

    ghost predicate RuleInBounds(r: nat) {
      r < |r1| && |r1| == |r2| == |rhs| && r2[r] == |rhs[r]| && (0 < r ==> ntokens <= r1[r] < ntokens + |pgoto|)
    }

    predicate State(s: int) { 0 <= s < |pact| }

    predicate Rule(r: int) { 0 < r < |r1| }

    // YYTRANSLATE
    function Translate(kind: nat): (symbol: nat)
      requires InBounds()
      ensures symbol < ntokens && (0 < kind ==> 0 < symbol)
    {
      if kind < |translate| then translate[kind] else undefToken
    }

    // yydefault
    function Default(s: nat): Action
      requires InBounds() && State(s)
    {
      if defact[s] == 0 then Error else Reduce(defact[s])
    }

    // yybackup, with a lookahead symbol.
    function Lookup(s: nat, symbol: nat): Action
      requires InBounds() && State(s)
    {
      var i := pact[s] + symbol;
      if pact[s] == pactNinf || i < 0 || |table| <= i || check[i] != symbol then Default(s)
      else if table[i] <= 0 then (if table[i] == 0 || table[i] == tableNinf then Error else Reduce(-table[i]))
      else if table[i] == final then Accept
      else Shift(table[i])
    }

    // The state after a reduction to a nonterminal over state s.
    function Goto(s: nat, symbol: nat): int
      requires InBounds() && ntokens <= symbol < ntokens + |pgoto|
    {
      var i := pgoto[symbol - ntokens] + s;
      if 0 <= i < |table| && check[i] == s then table[i] else defgoto[symbol - ntokens]
    }

    // Entering state t on a symbol from state s agrees with what is known about t.
    ghost predicate Fits(s: nat, symbol: nat, t: nat)
      requires InBounds() && State(s) && State(t)
    {
      var symbols, states := past[s] + [symbol], below[s] + [{s}];
      var cut := |symbols| - |past[t]|;
      && 0 <= cut
      && past[t] == symbols[cut..]
      && forall j {:trigger below[t][j]} :: 0 <= j < |past[t]| ==> states[cut + j] <= below[t][j]
    }

    // A state that can be on the stack above the bottom.
    predicate Enterable(t: int) { State(t) && t != 0 && t != final }

    ghost predicate EntersOk(s: nat, symbol: nat, t: int)
      requires InBounds() && State(s)
    {
      Enterable(t) && Fits(s, symbol, t)
    }

    ghost predicate ReducesOk(s: nat, r: int)
      requires InBounds() && State(s)
    {
      && Rule(r) && RuleInBounds(r)
      && var cut := |past[s]| - |rhs[r]|;
         && 0 <= cut && past[s][cut..] == rhs[r]
         && if rhs[r] == [] then EntersOk(s, r1[r], Goto(s, r1[r]))
            else forall u {:trigger u in below[s][cut]} :: u in below[s][cut] ==>
              State(u) && EntersOk(u, r1[r], Goto(u, r1[r]))
    }

    ghost predicate ActionOk(s: nat, symbol: nat, a: Action)
      requires InBounds() && State(s)
    {
      match a
      case Shift(t) => symbol != 0 && symbol != errorToken && EntersOk(s, symbol, t)
      case Reduce(r) => ReducesOk(s, r)
      case Accept => State(final) && Fits(s, symbol, final)
      case Error => true
    }

    // The start and the final state.
    ghost predicate EndsOk()
      requires InBounds()
    {
      && final != 0 && past[0] == []
      && State(final) && past[final] == [startSymbol, 0] && below[final][0] == {0}
    }

    // The static check.
    ghost predicate Consistent() {
      InBounds() && EndsOk() && forall s {:trigger StateOk(s)} :: State(s) && s != final ==> StateOk(s)
    }

    // With the height of the stack, ranks drop along reductions.
    ghost predicate Descending() {
      && Consistent() && |rank| == |pact|
      && (forall s {:trigger Ranked(s)} :: State(s) ==> Ranked(s))
      && forall s, symbol {:trigger Lookup(s, symbol)} :: State(s) && s != final && 0 <= symbol < ntokens ==>
           Drops(s, symbol, Lookup(s, symbol))
    }

    ghost predicate Ranked(s: nat)
      requires |rank| == |pact| && State(s)
    {
      |rank[s]| == ntokens && forall symbol :: 0 <= symbol < ntokens ==> rank[s][symbol] <= maxRank
    }

    ghost predicate Drops(s: nat, symbol: nat, a: Action)
      requires InBounds() && State(s)
    {
      a.Reduce? && ReducesOk(s, a.rule) ==> RankDrops(s, symbol, a.rule)
    }

    ghost predicate RankDrops(s: nat, symbol: nat, r: nat)
      requires InBounds() && State(s) && ReducesOk(s, r)
    {
      var cut := |past[s]| - |rhs[r]|;
      if rhs[r] == [] then DropsFrom(s, symbol, r, s)
      else forall u {:trigger u in below[s][cut]} :: u in below[s][cut] ==> DropsFrom(s, symbol, r, u)
    }

    ghost predicate DropsFrom(s: nat, symbol: nat, r: nat, u: nat)
      requires InBounds() && Rule(r) && RuleInBounds(r)
    {
      var g := Goto(u, r1[r]);
      && s < |rank| && 0 <= g < |rank| && symbol < |rank[s]| && symbol < |rank[g]|
      && rank[g][symbol] + 2 <= rank[s][symbol] + |rhs[r]|
    }

    ghost predicate StateOk(s: nat)
      requires InBounds() && State(s)
    {
      forall symbol {:trigger Lookup(s, symbol)} :: 0 <= symbol < ntokens ==> ActionOk(s, symbol, Lookup(s, symbol))
    }

    // ---------------------------------------------------------------------------
    // Stacks: states[0] is the bottom, symbols[i - 1] the symbol on which states[i] was entered
    // ---------------------------------------------------------------------------

    ghost predicate Known(states: seq<nat>, symbols: seq<nat>, i: nat)
      requires InBounds() && i < |states| == |symbols| + 1 && State(states[i])
    {
      var k := |past[states[i]]|;
      && k <= i && symbols[i - k..i] == past[states[i]]
      && forall j {:trigger below[states[i]][j]} :: 0 <= j < k ==> states[i - k + j] in below[states[i]][j]
    }

    ghost predicate StackOk(states: seq<nat>, symbols: seq<nat>)
      requires InBounds()
    {
      && |states| == |symbols| + 1 && states[0] == 0
      && (forall i :: 0 < i < |states| ==> Enterable(states[i]))
      && (forall i {:trigger Known(states, symbols, i)} :: 0 <= i < |states| ==>
            State(states[i]) && Known(states, symbols, i))
    }

    lemma {:induction false} BottomOk()
      requires InBounds() && past[0] == []
      ensures StackOk([0], [])
    {
      var states: seq<nat>, symbols: seq<nat> := [0], [];
      assert |past[0]| == 0 && symbols[0..0] == past[0];
      assert states[0] == 0 && State(states[0]) && Known(states, symbols, 0);
      forall i | 0 <= i < |states|
        ensures State(states[i]) && Known(states, symbols, i)
      {
        assert i == 0;
      }
    }

    lemma {:induction false} TopOk(states: seq<nat>, symbols: seq<nat>)
      requires InBounds() && EndsOk() && StackOk(states, symbols)
      ensures State(states[|states| - 1]) && states[|states| - 1] != final
    {
      assert Known(states, symbols, |states| - 1);
    }

    lemma {:induction false} PushOk(states: seq<nat>, symbols: seq<nat>, symbol: nat, t: nat)
      requires InBounds() && StackOk(states, symbols)
      requires EntersOk(states[|states| - 1], symbol, t)
      ensures StackOk(states + [t], symbols + [symbol])
    {
      var states', symbols' := states + [t], symbols + [symbol];
      var n := |states|;
      forall i | 0 <= i < |states'|
        ensures State(states'[i]) && Known(states', symbols', i)
      {
        if i < n {
          assert Known(states, symbols, i);
          var k := |past[states[i]]|;
          assert symbols'[i - k..i] == symbols[i - k..i];
        } else {
          EnterKnown(states, symbols, symbol, t);
        }
      }
    }

    // What is known below the top carries over to a state entered from it.
    lemma {:induction false} EnterKnown(states: seq<nat>, symbols: seq<nat>, symbol: nat, t: nat)
      requires InBounds() && StackOk(states, symbols)
      requires State(t) && Fits(states[|states| - 1], symbol, t)
      ensures Known(states + [t], symbols + [symbol], |states|)
    {
      var n, s := |states|, states[|states| - 1];
      assert Known(states, symbols, n - 1);
      var k, m := |past[s]|, |past[t]|;
      var cut := k + 1 - m;
      assert symbols[n - 1 - k..] == past[s];
      assert (symbols + [symbol])[n - 1 - k..] == past[s] + [symbol];
      assert (symbols + [symbol])[n - m..n] == (symbols + [symbol])[n - 1 - k..][cut..];
      forall j | 0 <= j < m
        ensures (states + [t])[n - m + j] in below[t][j]
      {
        var x := (below[s] + [{s}])[cut + j];
        if cut + j < k {
          assert states[n - 1 - k + (cut + j)] in below[s][cut + j];
        }
        assert (states + [t])[n - m + j] in x && x <= below[t][j];
      }
    }

    lemma {:induction false} PopOk(states: seq<nat>, symbols: seq<nat>, len: nat)
      requires InBounds() && StackOk(states, symbols) && len <= |symbols|
      ensures StackOk(states[..|states| - len], symbols[..|symbols| - len])
    {
      var states', symbols' := states[..|states| - len], symbols[..|symbols| - len];
      forall i | 0 <= i < |states'|
        ensures State(states'[i]) && Known(states', symbols', i)
      {
        assert Known(states, symbols, i);
        SliceOfTake(symbols, |symbols'|, i - |past[states[i]]|, i);
      }
    }

    static lemma {:induction false} SliceOfTake(s: seq<nat>, n: nat, a: int, b: int)
      requires 0 <= a <= b <= n <= |s|
      ensures s[..n][a..b] == s[a..b]
    {
    }

    // Wherever the driver reduces, the right-hand side is on top and the state below it has a goto.
    lemma {:induction false} ReductionFindsHandle(states: seq<nat>, symbols: seq<nat>, r: nat)
      requires InBounds() && StackOk(states, symbols)
      requires ReducesOk(states[|states| - 1], r)
      ensures |rhs[r]| <= |symbols| && symbols[|symbols| - |rhs[r]|..] == rhs[r]
      ensures var u := states[|states| - 1 - |rhs[r]|]; State(u) && EntersOk(u, r1[r], Goto(u, r1[r]))
    {
      var n, s := |states|, states[|states| - 1];
      assert Known(states, symbols, n - 1);
      var k := |past[s]|;
      var cut := k - |rhs[r]|;
      assert symbols[n - 1 - k..] == past[s];
      assert symbols[n - 1 - |rhs[r]|..] == symbols[n - 1 - k..][cut..];
      if rhs[r] != [] {
        assert states[n - 1 - k + cut] in below[s][cut];
      }
    }

    // Accepting is possible only at the end marker, with the start symbol alone on the stack.
    lemma {:induction false} AcceptsStartOnly(states: seq<nat>, symbols: seq<nat>, symbol: nat)
      requires InBounds() && EndsOk() && StackOk(states, symbols)
      requires State(final) && Fits(states[|states| - 1], symbol, final)
      ensures symbol == 0 && symbols == [startSymbol]
    {
      EnterKnown(states, symbols, symbol, final);
      var n := |states|;
      assert (symbols + [symbol])[n - 2..n] == [startSymbol, 0];
      assert (symbols + [symbol])[n - 1] == 0 && (symbols + [symbol])[n - 2] == startSymbol;
      assert (states + [final])[n - 2 + 0] in below[final][0];
      assert states[n - 2] == 0;
    }

    // ---------------------------------------------------------------------------
    // The machine that the driver implements: it always looks at the next token
    // ---------------------------------------------------------------------------

    function Peek<V>(rest: seq<(nat, V)>): nat
      requires InBounds()
    {
      if rest == [] then 0 else Translate(rest[0].0)
    }

    function Next<V>(act: (nat, seq<V>) -> V, c: Config<V>): Config<V>
      requires InBounds() && c.Running? && |c.states| == |c.values| + 1
    {
      var s := c.states[|c.values|];
      if !State(s) then Stopped(Aborted) else
        match Lookup(s, Peek(c.rest))
        case Shift(t) =>
          if c.rest == [] || t < 0 then Stopped(Aborted) else Shifted(c, t)
        case Reduce(r) => if Rule(r) then Reduced(act, c, r) else Stopped(Aborted)
        case Accept => if c.values == [] then Stopped(Aborted) else Stopped(Accepted(c.values[|c.values| - 1]))
        case Error => Stopped(Aborted)
    }

    function Shifted<V>(c: Config<V>, t: nat): Config<V>
      requires c.Running? && c.rest != []
    {
      Running(c.states + [t], c.values + [c.rest[0].1], c.rest[1..])
    }

    function Reduced<V>(act: (nat, seq<V>) -> V, c: Config<V>, r: nat): Config<V>
      requires InBounds() && c.Running? && |c.states| == |c.values| + 1 && Rule(r)
    {
      assert RuleInBounds(r);
      var n := |c.values| - r2[r];
      if n < 0 || Goto(c.states[n], r1[r]) < 0 then Stopped(Aborted)
      else Running(c.states[..n + 1] + [Goto(c.states[n], r1[r])], c.values[..n] + [act(r, c.values[n..])], c.rest)
    }

    function Run<V>(act: (nat, seq<V>) -> V, c: Config<V>, steps: nat): Outcome<V>
      requires InBounds() && (c.Running? ==> |c.states| == |c.values| + 1)
      decreases steps
    {
      if c.Stopped? then c.outcome else if steps == 0 then Unfinished else Run(act, Next(act, c), steps - 1)
    }

    // ---------------------------------------------------------------------------
    // The machine stops
    // ---------------------------------------------------------------------------

    // How many steps it can make at most.
    ghost function Steps<V>(c: Config<V>): nat
      requires Descending() && (c.Running? ==> |c.states| == |c.values| + 1)
    {
      if c.Stopped? || !State(c.states[|c.values|]) then 0
      else
        assert Ranked(c.states[|c.values|]);
        |c.values| + rank[c.states[|c.values|]][Peek(c.rest)] + |c.rest| * (maxRank + 2) + 1
    }

    lemma {:induction false} StepsDrop<V>(act: (nat, seq<V>) -> V, c: Config<V>, symbols: seq<nat>)
      requires Descending() && c.Running? && |c.states| == |c.values| + 1 && StackOk(c.states, symbols)
      ensures 0 < Steps(c) && Steps(Next(act, c)) < Steps(c)
    {
      TopOk(c.states, symbols);
      var s, symbol := c.states[|c.values|], Peek(c.rest);
      assert Ranked(s);
      match Lookup(s, symbol)
      case Shift(t) =>
        if c.rest != [] && 0 <= t {
          ShiftDrops(c, t);
        }
      case Reduce(r) => ReduceDrops(act, c, symbols, r);
      case Accept =>
      case Error =>
    }

    lemma {:induction false} ShiftDrops<V>(c: Config<V>, t: nat)
      requires Descending() && c.Running? && |c.states| == |c.values| + 1 && State(c.states[|c.values|])
      requires c.states[|c.values|] != final && Lookup(c.states[|c.values|], Peek(c.rest)) == Shift(t) && c.rest != []
      ensures State(t) && Steps(Shifted(c, t)) < Steps(c)
    {
      var s := c.states[|c.values|];
      assert StateOk(s) && ActionOk(s, Peek(c.rest), Shift(t)) && Ranked(s) && Ranked(t);
      OneLess(|c.rest|, maxRank + 2);
    }

    lemma {:induction false} ReduceDrops<V>(act: (nat, seq<V>) -> V, c: Config<V>, symbols: seq<nat>, r: int)
      requires Descending() && c.Running? && |c.states| == |c.values| + 1 && StackOk(c.states, symbols)
      requires State(c.states[|c.values|]) && c.states[|c.values|] != final
      requires Lookup(c.states[|c.values|], Peek(c.rest)) == Reduce(r)
      ensures Rule(r) && Steps(Reduced(act, c, r)) < Steps(c)
    {
      var s, symbol := c.states[|c.values|], Peek(c.rest);
      assert StateOk(s) && ActionOk(s, symbol, Reduce(r)) && Drops(s, symbol, Reduce(r)) && Ranked(s);
      ReductionFindsHandle(c.states, symbols, r);
      DropsBelow(c.states, symbols, r, symbol);
    }

    // A run from the start that goes on from c, and ends within the steps that are left.
    ghost predicate Ahead<V>(act: (nat, seq<V>) -> V, start: Config<V>, c: Config<V>, left: nat)
      requires Descending() && (c.Running? ==> |c.states| == |c.values| + 1)
      requires start.Running? && |start.states| == |start.values| + 1
    {
      Steps(c) <= left && Run(act, start, Steps(start)) == Run(act, c, left)
    }

    lemma {:induction false} StartAhead<V>(act: (nat, seq<V>) -> V, start: Config<V>)
      requires Descending() && start.Running? && |start.states| == |start.values| + 1
      ensures Ahead(act, start, start, Steps(start))
    {
    }

    lemma {:induction false} StepAhead<V>(act: (nat, seq<V>) -> V, start: Config<V>, c: Config<V>, symbols: seq<nat>,
                                          left: nat)
      requires Descending() && c.Running? && |c.states| == |c.values| + 1 && StackOk(c.states, symbols)
      requires start.Running? && |start.states| == |start.values| + 1 && Ahead(act, start, c, left)
      ensures 0 < left && Ahead(act, start, Next(act, c), left - 1)
      ensures Next(act, c).Stopped? ==> Next(act, c).outcome == Run(act, start, Steps(start))
    {
      StepsDrop(act, c, symbols);
    }

    static lemma {:induction false} OneLess(n: nat, m: nat)
      requires 0 < n
      ensures (n - 1) * m == n * m - m
    {
    }

    // What is known about the state below the handle, which the goto starts from.
    lemma {:induction false} DropsBelow(states: seq<nat>, symbols: seq<nat>, r: nat, symbol: nat)
      requires InBounds() && StackOk(states, symbols) && State(states[|states| - 1])
      requires ReducesOk(states[|states| - 1], r) && RankDrops(states[|states| - 1], symbol, r)
      ensures |rhs[r]| <= |symbols| && DropsFrom(states[|states| - 1], symbol, r, states[|states| - 1 - |rhs[r]|])
    {
      var n, s := |states|, states[|states| - 1];
      assert Known(states, symbols, n - 1);
      var cut := |past[s]| - |rhs[r]|;
      if rhs[r] != [] {
        var u := states[n - 1 - |past[s]| + cut];
        assert u in below[s][cut];
      }
    }

    // ---------------------------------------------------------------------------
    // Parse trees
    // ---------------------------------------------------------------------------

    function Root<V>(t: Tree<V>): nat
      requires InBounds()
    {
      match t
      case Leaf(kind, _) => Translate(kind)
      case Node(rule, _) => if Rule(rule) then r1[rule] else 0
    }

    // Every node's children spell the right-hand side of its rule.
    ghost predicate ValidTree<V>(t: Tree<V>)
      requires InBounds()
    {
      match t
      case Leaf(kind, _) => 0 < kind
      case Node(rule, children) =>
        && Rule(rule) && |children| == |rhs[rule]|
        && (forall c :: c in children ==> ValidTree(c))
        && (forall i :: 0 <= i < |children| ==> Root(children[i]) == rhs[rule][i])
    }

    function Roots<V>(trees: seq<Tree<V>>): (roots: seq<nat>)
      requires InBounds()
      ensures |roots| == |trees| && forall i :: 0 <= i < |trees| ==> roots[i] == Root(trees[i])
    {
      seq(|trees|, i requires 0 <= i < |trees| => Root(trees[i]))
    }
  }

  // Trees that spell a right-hand side make a node of its rule, whose value is that of its action.
  lemma {:induction false} NodeFits<V>(t: Tables, act: (nat, seq<V>) -> V, rule: nat, children: seq<Tree<V>>,
                                       values: seq<V>)
    requires t.InBounds() && t.Rule(rule) && t.RuleInBounds(rule) && t.Roots(children) == t.rhs[rule]
    requires |values| == |children|
    requires forall i {:trigger children[i]} :: 0 <= i < |children| ==>
               t.ValidTree(children[i]) && values[i] == Eval(act, children[i])
    ensures t.ValidTree(Node(rule, children)) && t.Root(Node(rule, children)) == t.r1[rule]
    ensures Eval(act, Node(rule, children)) == act(rule, values)
  {
    assert values == seq(|children|, i requires 0 <= i < |children| => Eval(act, children[i]));
  }

  // So do the last ones of some trees, with the last ones of their values.
  lemma {:induction false} HandleFits<V>(t: Tables, act: (nat, seq<V>) -> V, rule: nat, trees: seq<Tree<V>>,
                                         values: seq<V>, n: nat)
    requires t.InBounds() && t.Rule(rule) && t.RuleInBounds(rule) && n <= |trees| == |values|
    requires t.Roots(trees)[n..] == t.rhs[rule]
    requires forall i {:trigger trees[i]} :: 0 <= i < |trees| ==>
               t.ValidTree(trees[i]) && values[i] == Eval(act, trees[i])
    ensures var node := Node(rule, trees[n..]);
            t.ValidTree(node) && t.Root(node) == t.r1[rule] && Eval(act, node) == act(rule, values[n..])
  {
    assert t.Roots(trees[n..]) == t.Roots(trees)[n..];
    NodeFits(t, act, rule, trees[n..], values[n..]);
  }

  // The tokens at the leaves, from left to right.
  function Yield<V>(t: Tree<V>): seq<(nat, V)> {
    match t
    case Leaf(kind, value) => [(kind, value)]
    case Node(_, children) => Yields(children)
  }

  function Yields<V>(trees: seq<Tree<V>>): seq<(nat, V)> {
    if trees == [] then [] else Yields(trees[..|trees| - 1]) + Yield(trees[|trees| - 1])
  }

  lemma {:induction false} YieldsSnoc<V>(trees: seq<Tree<V>>, tree: Tree<V>)
    ensures Yields(trees + [tree]) == Yields(trees) + Yield(tree)
  {
    assert (trees + [tree])[..|trees|] == trees;
  }

  // The value of a tree when act computes a rule's value from those of its right-hand side.
  function Eval<V>(act: (nat, seq<V>) -> V, t: Tree<V>): V {
    match t
    case Leaf(_, value) => value
    case Node(rule, children) => act(rule, seq(|children|, i requires 0 <= i < |children| => Eval(act, children[i])))
  }

  // Making a node of the last trees leaves what all of them derive.
  lemma {:induction false} NodeYield<V>(trees: seq<Tree<V>>, n: nat, rule: nat)
    requires n <= |trees|
    ensures Yields(trees[..n] + [Node(rule, trees[n..])]) == Yields(trees)
  {
    var node := Node(rule, trees[n..]);
    YieldsConcat(trees[..n], trees[n..]);
    assert trees == trees[..n] + trees[n..];
    assert (trees[..n] + [node])[..n] == trees[..n];
  }

  lemma {:induction false} YieldsConcat<V>(a: seq<Tree<V>>, b: seq<Tree<V>>)
    ensures Yields(a + b) == Yields(a) + Yields(b)
  {
    if b == [] {
      assert a + b == a;
    } else {
      var b' := b[..|b| - 1];
      assert (a + b)[..|a + b| - 1] == a + b';
      YieldsConcat(a, b');
    }
  }
}
