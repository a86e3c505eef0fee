// A certificate that the packed tables leave nothing out: the items of each state. With it every input
// that has a parse tree is accepted, and has only one.
module LrItems {
  import opened LrTables

  // A rule of whose right-hand side the first dot symbols are on the stack, and the token that can
  // follow it.
  datatype Item = Item(rule: nat, dot: nat, follow: nat)

  // The items of every state; for each nonterminal the tokens that can come first in what it derives;
  // and the symbols that can derive nothing.
  datatype Items = Items(of: seq<set<Item>>, first: seq<set<nat>>, nullable: set<nat>)
  {
    predicate Has(s: int, item: Item) { 0 <= s < |of| && item in of[s] }

    predicate Vanish(symbols: seq<nat>) { forall i :: 0 <= i < |symbols| ==> symbols[i] in nullable }

    predicate Begins(t: Tables, symbol: nat, x: nat) {
      if symbol < t.ntokens then x == symbol else symbol - t.ntokens < |first| && x in first[symbol - t.ntokens]
    }

    // A token that can come first in what some symbols derive.
    predicate Begin(t: Tables, symbols: seq<nat>, x: nat) {
      symbols != [] && (Begins(t, symbols[0], x) || (symbols[0] in nullable && Begin(t, symbols[1..], x)))
    }

    // And in what they derive and what comes behind it.
    predicate Follow(t: Tables, symbols: seq<nat>, behind: nat, x: nat) {
      Begin(t, symbols, x) || (Vanish(symbols) && x == behind)
    }

    ghost predicate FirstOk(t: Tables)
      requires t.InBounds()
    {
      forall r {:trigger t.Rule(r)} :: t.Rule(r) ==>
        && (Vanish(t.rhs[r]) ==> t.r1[r] in nullable)
        && forall x :: Begin(t, t.rhs[r], x) ==> Begins(t, t.r1[r], x)
    }

    // The rules for a symbol begin in a state.
    ghost predicate Closed(t: Tables, s: nat, symbol: nat, rest: seq<nat>, behind: nat)
      requires t.InBounds()
    {
      forall r, x {:trigger Item(r, 0, x)} ::
        t.Rule(r) && t.r1[r] == symbol && Follow(t, rest, behind, x) ==> Has(s, Item(r, 0, x))
    }

    // In a state with that item the tables do what it says.
    ghost predicate ItemOk(t: Tables, s: nat, item: Item)
      requires t.InBounds() && t.State(s)
    {
      && t.Rule(item.rule) && item.dot <= |t.rhs[item.rule]|
      && if item.dot == |t.rhs[item.rule]| then t.Lookup(s, item.follow) == Reduce(item.rule)
         else GoesOn(t, s, t.rhs[item.rule][item.dot], item)
    }

    ghost predicate GoesOn(t: Tables, s: nat, symbol: nat, item: Item)
      requires t.InBounds() && t.State(s) && t.Rule(item.rule) && item.dot < |t.rhs[item.rule]|
    {
      var next := item.(dot := item.dot + 1);
      if symbol < t.ntokens then t.Lookup(s, symbol).Shift? && Has(t.Lookup(s, symbol).state, next)
      else
        && symbol < t.ntokens + |t.pgoto| && Has(t.Goto(s, symbol), next)
        && Closed(t, s, symbol, t.rhs[item.rule][item.dot + 1..], item.follow)
    }

    // The check of the certificate.
    ghost predicate Complete(t: Tables) {
      && t.InBounds() && |of| == |t.pact| && FirstOk(t)
      && (forall s, item {:trigger ItemOk(t, s, item)} :: Has(s, item) ==> ItemOk(t, s, item))
      && t.ntokens <= t.startSymbol < t.ntokens + |t.pgoto| && Closed(t, 0, t.startSymbol, [], 0)
      && var s := t.Goto(0, t.startSymbol); t.State(s) && t.Lookup(s, 0) == Accept
    }
  }

  // ---------------------------------------------------------------------------
  // The first token of what trees derive
  // ---------------------------------------------------------------------------

  lemma {:induction false} YieldsCons<V>(trees: seq<Tree<V>>)
    requires trees != []
    ensures Yields(trees) == Yield(trees[0]) + Yields(trees[1..])
  {
    YieldsConcat(trees[..1], trees[1..]);
    assert trees[..1] + trees[1..] == trees && trees[..1][..0] == [];
    assert Yields(trees[..1]) == [] + Yield(trees[0]);
  }

  ghost predicate AllValid<V>(t: Tables, trees: seq<Tree<V>>)
    requires t.InBounds()
  {
    forall i {:trigger trees[i]} :: 0 <= i < |trees| ==> t.ValidTree(trees[i])
  }

  lemma {:induction false} TreeBegins<V>(t: Tables, c: Items, tree: Tree<V>)
    requires t.InBounds() && c.FirstOk(t) && t.ValidTree(tree)
    ensures if Yield(tree) == [] then t.Root(tree) in c.nullable else c.Begins(t, t.Root(tree), t.Peek(Yield(tree)))
  {
    if tree.Node? {
      TreesBegin(t, c, tree.children);
      assert t.Roots(tree.children) == t.rhs[tree.rule];
    }
  }

  lemma {:induction false} TreesBegin<V>(t: Tables, c: Items, trees: seq<Tree<V>>)
    requires t.InBounds() && c.FirstOk(t) && AllValid(t, trees)
    ensures if Yields(trees) == [] then c.Vanish(t.Roots(trees))
            else c.Begin(t, t.Roots(trees), t.Peek(Yields(trees)))
  {
    if trees != [] {
      TreeBegins(t, c, trees[0]);
      TreesBegin(t, c, trees[1..]);
      YieldsCons(trees);
      RootsCons(t, trees);
      PeekConcat(t, Yield(trees[0]), Yields(trees[1..]));
    }
  }

  lemma {:induction false} RootsCons<V>(t: Tables, trees: seq<Tree<V>>)
    requires t.InBounds() && trees != []
    ensures t.Roots(trees) == [t.Root(trees[0])] + t.Roots(trees[1..])
    ensures t.Roots(trees)[1..] == t.Roots(trees[1..])
  {
  }

  lemma {:induction false} PeekConcat<V>(t: Tables, a: seq<(nat, V)>, b: seq<(nat, V)>)
    requires t.InBounds()
    ensures t.Peek(a + b) == if a == [] then t.Peek(b) else t.Peek(a)
  {
  }

  lemma {:induction false} PeekFollows<V>(t: Tables, c: Items, trees: seq<Tree<V>>, rest: seq<(nat, V)>)
    requires t.InBounds() && c.FirstOk(t) && AllValid(t, trees)
    ensures c.Follow(t, t.Roots(trees), t.Peek(rest), t.Peek(Yields(trees) + rest))
  {
    TreesBegin(t, c, trees);
    PeekConcat(t, Yields(trees), rest);
  }

  // ---------------------------------------------------------------------------
  // Steps of the machine
  // ---------------------------------------------------------------------------

  ghost predicate Shaped<V>(c: Config<V>) { c.Running? ==> |c.states| == |c.values| + 1 }

  ghost predicate Reaches<V>(t: Tables, act: (nat, seq<V>) -> V, c: Config<V>, c': Config<V>, k: nat)
    requires t.InBounds() && Shaped(c)
    decreases k
  {
    if k == 0 then c == c' else c.Running? && Reaches(t, act, t.Next(act, c), c', k - 1)
  }

  lemma {:induction false} ReachesOn<V>(t: Tables, act: (nat, seq<V>) -> V, c: Config<V>, c': Config<V>, c'': Config<V>,
                                        k: nat, m: nat)
    requires t.InBounds() && Shaped(c) && Shaped(c') && Reaches(t, act, c, c', k) && Reaches(t, act, c', c'', m)
    ensures Reaches(t, act, c, c'', k + m)
    decreases k
  {
    if k > 0 {
      ReachesOn(t, act, t.Next(act, c), c', c'', k - 1, m);
    }
  }

  lemma {:induction false} RunReaches<V>(t: Tables, act: (nat, seq<V>) -> V, c: Config<V>, out: Outcome<V>, k: nat,
                                         n: nat)
    requires t.InBounds() && Shaped(c) && Reaches(t, act, c, Stopped(out), k)
    ensures t.Run(act, c, n) == if n < k then Unfinished else out
    decreases k
  {
    if k > 0 && n > 0 {
      RunReaches(t, act, t.Next(act, c), out, k - 1, n - 1);
    }
  }

  // ---------------------------------------------------------------------------
  // A tree is read
  // ---------------------------------------------------------------------------

  function Evals<V>(act: (nat, seq<V>) -> V, trees: seq<Tree<V>>): (values: seq<V>)
    ensures |values| == |trees| && forall i :: 0 <= i < |trees| ==> values[i] == Eval(act, trees[i])
  {
    seq(|trees|, i requires 0 <= i < |trees| => Eval(act, trees[i]))
  }

  function Top(states: seq<nat>): nat
    requires states != []
  {
    states[|states| - 1]
  }

  // Before child i is read, above what was there before the first.
  function Before<V>(act: (nat, seq<V>) -> V, trees: seq<Tree<V>>, i: nat, states: seq<nat>, values: seq<V>,
                     rest: seq<(nat, V)>): (c: Config<V>)
    requires i <= |trees|
    ensures c.Running? && c.states == states && |c.values| == |values| + i
  {
    Running(states, values + Evals(act, trees[..i]), Yields(trees[i..]) + rest)
  }

  // In a state that a rule begins in, with a token behind that can follow it, what a tree of that rule
  // derives is read, and leaves the goto of its symbol and its value.
  lemma {:induction false} ReadsTree<V>(t: Tables, c: Items, act: (nat, seq<V>) -> V, tree: Tree<V>, states: seq<nat>,
                                        values: seq<V>, rest: seq<(nat, V)>)
    returns (k: nat)
    requires c.Complete(t) && t.ValidTree(tree) && tree.Node? && |states| == |values| + 1
    requires c.Has(Top(states), Item(tree.rule, 0, t.Peek(rest)))
    requires t.RuleInBounds(tree.rule) && t.State(t.Goto(Top(states), t.r1[tree.rule]))
    ensures Reaches(t, act, Running(states, values, Yield(tree) + rest),
                    Running(states + [t.Goto(Top(states), t.r1[tree.rule])], values + [Eval(act, tree)], rest), k)
    decreases tree, |t.rhs[tree.rule]| + 2
  {
    FirstAndLast(act, tree.children, states, values, rest);
    var states';
    k, states' := ReadsChildren(t, c, act, tree, 0, states, values, rest, states);
    FirstAndLast(act, tree.children, states', values, rest);
    ReducesTree(t, c, act, tree, states, states', values, rest);
    ReachesNext(t, act, Running(states, values, Yield(tree) + rest),
                Running(states', values + Evals(act, tree.children), rest), k);
    k := k + 1;
  }

  lemma {:induction false} FirstAndLast<V>(act: (nat, seq<V>) -> V, trees: seq<Tree<V>>, states: seq<nat>,
                                           values: seq<V>,
                                           rest: seq<(nat, V)>)
    ensures Before(act, trees, 0, states, values, rest) == Running(states, values, Yields(trees) + rest)
    ensures Before(act, trees, |trees|, states, values, rest) == Running(states, values + Evals(act, trees), rest)
  {
    assert trees[0..] == trees && values + Evals(act, trees[..0]) == values;
    assert trees[..|trees|] == trees && Yields(trees[|trees|..]) + rest == rest;
  }

  lemma {:induction false} ReachesNext<V>(t: Tables, act: (nat, seq<V>) -> V, c: Config<V>, c': Config<V>, k: nat)
    requires t.InBounds() && Shaped(c) && Shaped(c') && Reaches(t, act, c, c', k) && c'.Running?
    ensures Reaches(t, act, c, t.Next(act, c'), k + 1)
  {
    var c'' := t.Next(act, c');
    assert Reaches(t, act, c'', c'', 0);
    assert Reaches(t, act, c', c'', 1);
    ReachesOn(t, act, c, c', c'', k, 1);
  }

  // Behind all of a right-hand side the rule is reduced.
  lemma {:induction false} ReducesTree<V>(t: Tables, c: Items, act: (nat, seq<V>) -> V, tree: Tree<V>, below: seq<nat>,
                                          states: seq<nat>, values: seq<V>, rest: seq<(nat, V)>)
    requires c.Complete(t) && tree.Node? && t.ValidTree(tree) && t.RuleInBounds(tree.rule)
    requires |below| == |values| + 1 && |states| == |below| + |tree.children| && below <= states
    requires t.State(t.Goto(Top(below), t.r1[tree.rule]))
    requires c.Has(Top(states), Item(tree.rule, |tree.children|, t.Peek(rest)))
    ensures t.Next(act, Running(states, values + Evals(act, tree.children), rest))
         == Running(below + [t.Goto(Top(below), t.r1[tree.rule])], values + [Eval(act, tree)], rest)
  {
    var item := Item(tree.rule, |tree.children|, t.Peek(rest));
    var all := values + Evals(act, tree.children);
    assert c.ItemOk(t, Top(states), item);
    assert all[..|values|] == values && all[|values|..] == Evals(act, tree.children);
    assert states[..|values| + 1] == below && states[|values|] == Top(below);
  }

  // From child i on, with the states below the first child, and the values below its value.
  lemma {:induction false} ReadsChildren<V>(t: Tables, c: Items, act: (nat, seq<V>) -> V, tree: Tree<V>, i: nat,
                                            below: seq<nat>, values: seq<V>, rest: seq<(nat, V)>, states: seq<nat>)
    returns (k: nat, states': seq<nat>)
    requires c.Complete(t) && t.ValidTree(tree) && tree.Node? && |below| == |values| + 1
    requires i <= |tree.children| && |states| == |below| + i && below <= states
    requires c.Has(Top(states), Item(tree.rule, i, t.Peek(rest)))
    ensures |states'| == |below| + |tree.children| && below <= states'
    ensures Reaches(t, act, Before(act, tree.children, i, states, values, rest),
                    Before(act, tree.children, |tree.children|, states', values, rest), k)
    ensures c.Has(Top(states'), Item(tree.rule, |tree.children|, t.Peek(rest)))
    decreases tree, |t.rhs[tree.rule]| - i + 1
  {
    if i == |tree.children| {
      k, states' := 0, states;
    } else {
      var g, m;
      k, g := ReadsNext(t, c, act, tree, i, below, values, rest, states);
      m, states' := ReadsChildren(t, c, act, tree, i + 1, below, values, rest, states + [g]);
      ReachesEnd(t, act, tree.children, i, states, g, states', values, rest, k, m);
      k := k + m;
    }
  }

  lemma {:induction false} ReachesEnd<V>(t: Tables, act: (nat, seq<V>) -> V, trees: seq<Tree<V>>, i: nat,
                                         states: seq<nat>, g: nat, states': seq<nat>, values: seq<V>,
                                         rest: seq<(nat, V)>, k: nat, m: nat)
    requires t.InBounds() && i < |trees| && |states| == |values| + 1 + i && |states'| == |values| + 1 + |trees|
    requires Reaches(t, act, Before(act, trees, i, states, values, rest),
                     Before(act, trees, i + 1, states + [g], values, rest), k)
    requires Reaches(t, act, Before(act, trees, i + 1, states + [g], values, rest),
                     Before(act, trees, |trees|, states', values, rest), m)
    ensures Reaches(t, act, Before(act, trees, i, states, values, rest),
                    Before(act, trees, |trees|, states', values, rest), k + m)
  {
    ReachesOn(t, act, Before(act, trees, i, states, values, rest),
              Before(act, trees, i + 1, states + [g], values, rest),
              Before(act, trees, |trees|, states', values, rest), k, m);
  }

  lemma {:induction false} ReadsNext<V>(t: Tables, c: Items, act: (nat, seq<V>) -> V, tree: Tree<V>, i: nat,
                                        below: seq<nat>, values: seq<V>, rest: seq<(nat, V)>, states: seq<nat>)
    returns (k: nat, g: nat)
    requires c.Complete(t) && t.ValidTree(tree) && tree.Node? && |below| == |values| + 1
    requires i < |tree.children| && |states| == |below| + i && below <= states
    requires c.Has(Top(states), Item(tree.rule, i, t.Peek(rest)))
    ensures below <= states + [g] && c.Has(Top(states + [g]), Item(tree.rule, i + 1, t.Peek(rest)))
    ensures Reaches(t, act, Before(act, tree.children, i, states, values, rest),
                    Before(act, tree.children, i + 1, states + [g], values, rest), k)
    decreases tree, 1
  {
    k, g := ReadsChild(t, c, act, tree, i, states, values + Evals(act, tree.children[..i]), rest);
    StillBelow(below, states, g);
    OneMoreChild(act, tree.children, i, values, rest);
  }

  lemma {:induction false} StillBelow(below: seq<nat>, states: seq<nat>, g: nat)
    requires below <= states
    ensures below <= states + [g] && Top(states + [g]) == g
  {
  }

  lemma {:induction false} OneMoreChild<V>(act: (nat, seq<V>) -> V, trees: seq<Tree<V>>, i: nat, values: seq<V>,
                                           rest: seq<(nat, V)>)
    requires i < |trees|
    ensures Yields(trees[i..]) + rest == Yield(trees[i]) + (Yields(trees[i + 1..]) + rest)
    ensures values + Evals(act, trees[..i]) + [Eval(act, trees[i])] == values + Evals(act, trees[..i + 1])
  {
    YieldsCons(trees[i..]);
    assert trees[i..][1..] == trees[i + 1..];
    assert Evals(act, trees[..i + 1]) == Evals(act, trees[..i]) + [Eval(act, trees[i])];
  }

  // A token is shifted, and a tree read in the states of its own rule.
  lemma {:induction false} ReadsChild<V>(t: Tables, c: Items, act: (nat, seq<V>) -> V, tree: Tree<V>, i: nat,
                                         states: seq<nat>, values: seq<V>, rest: seq<(nat, V)>)
    returns (k: nat, g: nat)
    requires c.Complete(t) && t.ValidTree(tree) && tree.Node? && |states| == |values| + 1
    requires i < |tree.children| && c.Has(Top(states), Item(tree.rule, i, t.Peek(rest)))
    ensures c.Has(g, Item(tree.rule, i + 1, t.Peek(rest)))
    ensures Reaches(t, act, Running(states, values, Yield(tree.children[i]) + (Yields(tree.children[i + 1..]) + rest)),
                    Running(states + [g], values + [Eval(act, tree.children[i])],
                            Yields(tree.children[i + 1..]) + rest),
                    k)
    decreases tree, 0
  {
    var child, behind := tree.children[i], Yields(tree.children[i + 1..]) + rest;
    var item := Item(tree.rule, i, t.Peek(rest));
    assert c.ItemOk(t, Top(states), item) && t.Root(child) == t.rhs[tree.rule][i];
    match child
    case Leaf(kind, value) =>
      g, k := t.Lookup(Top(states), t.Root(child)).state, 1;
      ShiftsLeaf(t, act, child, states, values, behind, g);
    case Node(rule, _) =>
      Begun(t, c, tree, i, Top(states), rest);
      g := t.Goto(Top(states), t.r1[rule]);
      k := ReadsTree(t, c, act, child, states, values, behind);
  }

  lemma {:induction false} ShiftsLeaf<V>(t: Tables, act: (nat, seq<V>) -> V, leaf: Tree<V>, states: seq<nat>,
                                         values: seq<V>, behind: seq<(nat, V)>, g: nat)
    requires t.InBounds() && leaf.Leaf? && |states| == |values| + 1 && t.State(Top(states))
    requires t.Lookup(Top(states), t.Root(leaf)) == Shift(g)
    ensures Reaches(t, act, Running(states, values, Yield(leaf) + behind),
                    Running(states + [g], values + [Eval(act, leaf)], behind), 1)
  {
    var c := Running(states, values, Yield(leaf) + behind);
    assert c.rest[0] == (leaf.kind, leaf.value) && c.rest[1..] == behind;
    var c' := t.Next(act, c);
    assert c' == Running(states + [g], values + [Eval(act, leaf)], behind);
    assert Reaches(t, act, c', c', 0);
  }

  // The rule of a child begins where its parent's gets to it.
  lemma {:induction false} Begun<V>(t: Tables, c: Items, tree: Tree<V>, i: nat, s: nat, rest: seq<(nat, V)>)
    requires c.Complete(t) && t.ValidTree(tree) && tree.Node? && i < |tree.children| && tree.children[i].Node?
    requires c.Has(s, Item(tree.rule, i, t.Peek(rest)))
    ensures var child := tree.children[i];
            && t.ValidTree(child) && t.RuleInBounds(child.rule)
            && c.Has(s, Item(child.rule, 0, t.Peek(Yields(tree.children[i + 1..]) + rest)))
            && c.Has(t.Goto(s, t.r1[child.rule]), Item(tree.rule, i + 1, t.Peek(rest)))
  {
    var child, others := tree.children[i], tree.children[i + 1..];
    assert t.ValidTree(child) && t.Root(child) == t.rhs[tree.rule][i];
    assert c.ItemOk(t, s, Item(tree.rule, i, t.Peek(rest))) && t.RuleInBounds(child.rule);
    assert t.Roots(others) == t.rhs[tree.rule][i + 1..];
    PeekFollows(t, c, others, rest);
  }

  // ---------------------------------------------------------------------------
  // An input with a parse tree is accepted
  // ---------------------------------------------------------------------------

  ghost predicate ParseTree<V>(t: Tables, tree: Tree<V>, input: seq<(nat, V)>)
    requires t.InBounds()
  {
    t.ValidTree(tree) && t.Root(tree) == t.startSymbol && Yield(tree) == input
  }

  // The machine gets to its end, and the value is that of the tree.
  lemma {:induction false} GetsToEnd<V>(t: Tables, c: Items, act: (nat, seq<V>) -> V, tree: Tree<V>,
                                        input: seq<(nat, V)>)
    returns (k: nat)
    requires c.Complete(t) && ParseTree(t, tree, input)
    ensures Reaches(t, act, Running([0], [], input), Stopped(Accepted(Eval(act, tree))), k)
  {
    StartBegins(t, c, tree);
    k := ReadsTree(t, c, act, tree, [0], [], []);
    var g := t.Goto(0, t.startSymbol);
    assert Yield(tree) + [] == input && [0] + [g] == [0, g] && [] + [Eval(act, tree)] == [Eval(act, tree)];
    ReachesNext(t, act, Running([0], [], input), Running([0, g], [Eval(act, tree)], []), k);
    k := k + 1;
  }

  lemma {:induction false} StartBegins<V>(t: Tables, c: Items, tree: Tree<V>)
    requires c.Complete(t) && t.ValidTree(tree) && t.Root(tree) == t.startSymbol
    ensures tree.Node? && t.RuleInBounds(tree.rule) && t.r1[tree.rule] == t.startSymbol
    ensures c.Has(0, Item(tree.rule, 0, 0))
  {
    assert tree.Node? ==> t.RuleInBounds(tree.rule);
    assert c.Follow(t, [], 0, 0);
  }

  // In as many steps as there can be at most.
  lemma {:induction false} TreeAccepted<V>(t: Tables, c: Items, act: (nat, seq<V>) -> V, tree: Tree<V>,
                                           input: seq<(nat, V)>)
    requires t.Descending() && c.Complete(t) && ParseTree(t, tree, input)
    ensures var start := Running([0], [], input); t.Run(act, start, t.Steps(start)) == Accepted(Eval(act, tree))
  {
    var start := Running([0], [], input);
    var k := GetsToEnd(t, c, act, tree, input);
    RunReaches(t, act, start, Accepted(Eval(act, tree)), k, t.Steps(start));
    t.BottomOk();
    RunEnds(t, act, start, [], t.Steps(start));
  }

  lemma {:induction false} RunEnds<V>(t: Tables, act: (nat, seq<V>) -> V, c: Config<V>, symbols: seq<nat>, n: nat)
    requires t.Descending() && c.Running? && Shaped(c) && t.StackOk(c.states, symbols) && t.Steps(c) <= n
    ensures !t.Run(act, c, n).Unfinished?
    decreases n
  {
    t.StepsDrop(act, c, symbols);
    var c' := t.Next(act, c);
    if c'.Running? {
      var symbols' := NextOk(t, act, c, symbols);
      RunEnds(t, act, c', symbols', n - 1);
    } else {
      StoppedOutcome(t, act, c);
    }
  }

  lemma {:induction false} StoppedOutcome<V>(t: Tables, act: (nat, seq<V>) -> V, c: Config<V>)
    requires t.InBounds() && c.Running? && Shaped(c) && t.Next(act, c).Stopped?
    ensures !t.Next(act, c).outcome.Unfinished?
  {
  }

  lemma {:induction false} ReducedOk<V>(t: Tables, act: (nat, seq<V>) -> V, c: Config<V>, symbols: seq<nat>, r: nat)
    returns (symbols': seq<nat>)
    requires t.InBounds() && c.Running? && Shaped(c) && t.StackOk(c.states, symbols)
    requires t.State(c.states[|c.values|]) && t.ReducesOk(c.states[|c.values|], r)
    requires t.Reduced(act, c, r).Running?
    ensures t.StackOk(t.Reduced(act, c, r).states, symbols')
  {
    t.ReductionFindsHandle(c.states, symbols, r);
    var n := |t.rhs[r]|;
    t.PopOk(c.states, symbols, n);
    var below := c.states[..|c.states| - n];
    t.PushOk(below, symbols[..|symbols| - n], t.r1[r], t.Goto(below[|below| - 1], t.r1[r]));
    symbols' := symbols[..|symbols| - n] + [t.r1[r]];
  }

  lemma {:induction false} NextOk<V>(t: Tables, act: (nat, seq<V>) -> V, c: Config<V>, symbols: seq<nat>)
    returns (symbols': seq<nat>)
    requires t.Consistent() && c.Running? && Shaped(c) && t.StackOk(c.states, symbols) && t.Next(act, c).Running?
    ensures t.StackOk(t.Next(act, c).states, symbols')
  {
    t.TopOk(c.states, symbols);
    var s, symbol := c.states[|c.values|], t.Peek(c.rest);
    assert t.StateOk(s) && t.ActionOk(s, symbol, t.Lookup(s, symbol));
    symbols' := [];
    match t.Lookup(s, symbol)
    case Shift(u) =>
      t.PushOk(c.states, symbols, symbol, u);
      symbols' := symbols + [symbol];
    case Reduce(r) => symbols' := ReducedOk(t, act, c, symbols, r);
    case Accept =>
    case Error =>
  }

  // ---------------------------------------------------------------------------
  // It has no other parse tree
  // ---------------------------------------------------------------------------

  // With the leaves for values, the value that the machine computes is the tree itself.
  function Lift<V>(tree: Tree<V>): Tree<Tree<V>> {
    match tree
    case Leaf(kind, _) => Leaf(kind, tree)
    case Node(rule, children) =>
      Node(rule, seq(|children|, i requires 0 <= i < |children| => Lift(children[i])))
  }

  function Lifts<V>(trees: seq<Tree<V>>): (lifted: seq<Tree<Tree<V>>>)
    ensures |lifted| == |trees| && forall i :: 0 <= i < |trees| ==> lifted[i] == Lift(trees[i])
  {
    seq(|trees|, i requires 0 <= i < |trees| => Lift(trees[i]))
  }

  function LiftTokens<V>(tokens: seq<(nat, V)>): (lifted: seq<(nat, Tree<V>)>)
    ensures |lifted| == |tokens|
    ensures forall i :: 0 <= i < |tokens| ==> lifted[i] == (tokens[i].0, Leaf(tokens[i].0, tokens[i].1))
  {
    seq(|tokens|, i requires 0 <= i < |tokens| => (tokens[i].0, Leaf(tokens[i].0, tokens[i].1)))
  }

  lemma {:induction false} LiftValue<V>(tree: Tree<V>)
    ensures Eval((rule, trees) => Node(rule, trees), Lift(tree)) == tree
  {
    var build := (rule: nat, trees: seq<Tree<V>>) => Node(rule, trees);
    if tree.Node? {
      forall i | 0 <= i < |tree.children|
        ensures Eval(build, Lift(tree.children[i])) == tree.children[i]
      {
        LiftValue(tree.children[i]);
      }
      assert Evals(build, Lifts(tree.children)) == tree.children;
    }
  }

  lemma {:induction false} LiftValid<V>(t: Tables, tree: Tree<V>)
    requires t.InBounds() && t.ValidTree(tree)
    ensures t.ValidTree(Lift(tree)) && t.Root(Lift(tree)) == t.Root(tree)
  {
    if tree.Node? {
      forall i | 0 <= i < |tree.children|
        ensures t.ValidTree(Lift(tree.children[i])) && t.Root(Lift(tree.children[i])) == t.rhs[tree.rule][i]
      {
        LiftValid(t, tree.children[i]);
      }
      assert Lift(tree) == Node(tree.rule, Lifts(tree.children));
    }
  }

  lemma {:induction false} LiftYield<V>(tree: Tree<V>)
    ensures Yield(Lift(tree)) == LiftTokens(Yield(tree))
  {
    if tree.Node? {
      LiftYields(tree.children);
      assert Lift(tree) == Node(tree.rule, Lifts(tree.children));
    }
  }

  lemma {:induction false} LiftYields<V>(trees: seq<Tree<V>>)
    ensures Yields(Lifts(trees)) == LiftTokens(Yields(trees))
  {
    if trees != [] {
      var n := |trees| - 1;
      LiftYields(trees[..n]);
      LiftYield(trees[n]);
      assert Lifts(trees)[..n] == Lifts(trees[..n]);
      LiftConcat(Yields(trees[..n]), Yield(trees[n]));
    }
  }

  lemma {:induction false} LiftConcat<V>(a: seq<(nat, V)>, b: seq<(nat, V)>)
    ensures LiftTokens(a + b) == LiftTokens(a) + LiftTokens(b)
  {
  }

  // So a certificate proves that the grammar is unambiguous.
  lemma {:induction false} OneTree<V>(t: Tables, c: Items, a: Tree<V>, b: Tree<V>, input: seq<(nat, V)>)
    requires c.Complete(t) && ParseTree(t, a, input) && ParseTree(t, b, input)
    ensures a == b
  {
    var build := (rule: nat, trees: seq<Tree<V>>) => Node(rule, trees);
    var start := Running([0], [], LiftTokens(input));
    var k := GetsToLifted(t, c, a, input);
    var m := GetsToLifted(t, c, b, input);
    RunReaches(t, build, start, Accepted(a), k, k + m);
    RunReaches(t, build, start, Accepted(b), m, k + m);
  }

  lemma {:induction false} GetsToLifted<V>(t: Tables, c: Items, tree: Tree<V>, input: seq<(nat, V)>) returns (k: nat)
    requires c.Complete(t) && ParseTree(t, tree, input)
    ensures Reaches(t, (rule, trees) => Node(rule, trees), Running([0], [], LiftTokens(input)),
                    Stopped(Accepted(tree)), k)
  {
    var build := (rule: nat, trees: seq<Tree<V>>) => Node(rule, trees);
    LiftValue(tree);
    LiftValid(t, tree);
    LiftYield(tree);
    k := GetsToEnd(t, c, build, Lift(tree), LiftTokens(input));
  }
}
