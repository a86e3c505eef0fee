// The textbook machine over tables with an entry for every state and symbol, which the packed ones
// stand for.
module LrUnpacked {
  import opened LrTables
  import opened LrItems
  import opened LrLanguage

  // What to do in a state with a token next, and where to go from it with a nonterminal.
  datatype Unpacked = Unpacked(actions: seq<seq<Action>>, gotos: seq<seq<int>>)
  {
    ghost predicate Of(t: Tables)
      requires t.InBounds()
    {
      && |actions| == |gotos| == |t.pact|
      && (forall s :: 0 <= s < |actions| ==> |actions[s]| == t.ntokens && |gotos[s]| == |t.pgoto|)
      && (forall s, symbol :: 0 <= s < |actions| && 0 <= symbol < t.ntokens ==>
            ActionIs(t, s, symbol, actions[s][symbol]))
      && forall s, x :: 0 <= s < |gotos| && 0 <= x < |t.pgoto| ==> GotoIs(t, s, x, gotos[s][x])
    }

    // The symbol on top of the stack and the next token decide what is done.
    function Next<V>(t: Tables, act: (nat, seq<V>) -> V, c: Config<V>): Config<V>
      requires t.InBounds() && c.Running? && Shaped(c)
    {
      var s, symbol := c.states[|c.values|], if c.rest == [] then 0 else SymbolsOf(t, c.rest)[0];
      if |actions| <= s || |actions[s]| <= symbol then Stopped(Aborted) else
        match actions[s][symbol]
        case Shift(u) =>
          if c.rest == [] || u < 0 then Stopped(Aborted)
          else Running(c.states + [u], c.values + [c.rest[0].1], c.rest[1..])
        case Reduce(r) => if 0 < r < |t.rhs| then Reduced(t, act, c, r) else Stopped(Aborted)
        case Accept => if c.values == [] then Stopped(Aborted) else Stopped(Accepted(c.values[|c.values| - 1]))
        case Error => Stopped(Aborted)
    }

    // The values of a right-hand side become one, and the state below them leads on.
    function Reduced<V>(t: Tables, act: (nat, seq<V>) -> V, c: Config<V>, r: nat): Config<V>
      requires t.InBounds() && c.Running? && Shaped(c) && 0 < r < |t.rhs|
    {
      assert t.RuleInBounds(r);
      var n, x := |c.values| - |t.rhs[r]|, t.r1[r] - t.ntokens;
      if n < 0 || |gotos| <= c.states[n] || |gotos[c.states[n]]| <= x || gotos[c.states[n]][x] < 0 then Stopped(Aborted)
      else Running(c.states[..n + 1] + [gotos[c.states[n]][x]], c.values[..n] + [act(r, c.values[n..])], c.rest)
    }

    function Run<V>(t: Tables, act: (nat, seq<V>) -> V, c: Config<V>, steps: nat): Outcome<V>
      requires t.InBounds() && Shaped(c)
      decreases steps
    {
      if c.Stopped? then c.outcome else if steps == 0 then Unfinished else Run(t, act, Next(t, act, c), steps - 1)
    }
  }

  // An entry of the packed table.
  ghost predicate Means(t: Tables, entry: int, a: Action) {
    match a
    case Shift(s) => entry == s && 0 < entry && entry != t.final
    case Accept => entry == t.final && 0 < entry
    case Reduce(r) => entry == -r && entry < 0 && entry != t.tableNinf
    case Error => entry <= 0 && (entry == 0 || entry == t.tableNinf)
  }

  // The row of a state begins at pact[s], and an entry is its own if check has the token there.
  ghost predicate OwnAction(t: Tables, s: nat, symbol: nat, i: nat)
    requires t.InBounds() && s < |t.pact|
  {
    t.pact[s] != t.pactNinf && i == t.pact[s] + symbol && i < |t.table| && t.check[i] == symbol
  }

  ghost predicate ActionIs(t: Tables, s: nat, symbol: nat, a: Action)
    requires t.InBounds() && s < |t.pact|
  {
    && (forall i: nat :: OwnAction(t, s, symbol, i) ==> Means(t, t.table[i], a))
    && ((forall i: nat :: !OwnAction(t, s, symbol, i)) ==>
          (t.defact[s] == 0 ==> a == Error) && (t.defact[s] > 0 ==> a == Reduce(t.defact[s])))
  }

  // The column of a nonterminal begins at pgoto[x], and an entry is its own if check has the state there.
  ghost predicate OwnGoto(t: Tables, s: nat, x: nat, i: nat)
    requires t.InBounds() && x < |t.pgoto|
  {
    i == t.pgoto[x] + s && i < |t.table| && t.check[i] == s
  }

  ghost predicate GotoIs(t: Tables, s: nat, x: nat, g: int)
    requires t.InBounds() && x < |t.pgoto|
  {
    && (forall i: nat :: OwnGoto(t, s, x, i) ==> g == t.table[i])
    && ((forall i: nat :: !OwnGoto(t, s, x, i)) ==> g == t.defgoto[x])
  }

  lemma {:induction false} LookupIs(t: Tables, s: nat, symbol: nat)
    requires t.InBounds() && s < |t.pact|
    ensures ActionIs(t, s, symbol, t.Lookup(s, symbol))
    ensures forall a :: ActionIs(t, s, symbol, a) ==> a == t.Lookup(s, symbol)
  {
    var i := t.pact[s] + symbol;
    if 0 <= i {
      assert forall j: nat :: OwnAction(t, s, symbol, j) ==> j == i;
      assert OwnAction(t, s, symbol, i) <==> t.pact[s] != t.pactNinf && i < |t.table| && t.check[i] == symbol;
    }
  }

  lemma {:induction false} LookupGotoIs(t: Tables, s: nat, x: nat)
    requires t.InBounds() && x < |t.pgoto|
    ensures GotoIs(t, s, x, t.Goto(s, t.ntokens + x))
    ensures forall g :: GotoIs(t, s, x, g) ==> g == t.Goto(s, t.ntokens + x)
  {
    var i := t.pgoto[x] + s;
    if 0 <= i {
      assert forall j: nat :: OwnGoto(t, s, x, j) ==> j == i;
      assert OwnGoto(t, s, x, i) <==> i < |t.table| && t.check[i] == s;
    }
  }

  // There are such tables.
  lemma {:induction false} SomeUnpacked(t: Tables) returns (u: Unpacked)
    requires t.InBounds()
    ensures u.Of(t)
  {
    u := Unpacked(
      seq(|t.pact|, s requires 0 <= s < |t.pact| =>
        seq(t.ntokens, symbol requires 0 <= symbol => t.Lookup(s, symbol))),
      seq(|t.pact|, s requires 0 <= s < |t.pact| =>
        seq(|t.pgoto|, x requires 0 <= x < |t.pgoto| => t.Goto(s, t.ntokens + x))));
    forall s, symbol | 0 <= s < |t.pact| && 0 <= symbol < t.ntokens
      ensures ActionIs(t, s, symbol, u.actions[s][symbol])
    {
      LookupIs(t, s, symbol);
    }
    forall s, x | 0 <= s < |t.pact| && 0 <= x < |t.pgoto|
      ensures GotoIs(t, s, x, u.gotos[s][x])
    {
      LookupGotoIs(t, s, x);
    }
  }

  // The machine over them is the one over the packed tables, as long as it stays among the states.
  lemma {:induction false} SameNext<V>(t: Tables, u: Unpacked, act: (nat, seq<V>) -> V, c: Config<V>, symbols: seq<nat>)
    requires t.Consistent() && u.Of(t) && c.Running? && Shaped(c) && t.StackOk(c.states, symbols)
    ensures u.Next(t, act, c) == t.Next(act, c)
  {
    t.TopOk(c.states, symbols);
    PeekIs(t, c.rest);
    var s, symbol := c.states[|c.values|], t.Peek(c.rest);
    LookupIs(t, s, symbol);
    assert ActionIs(t, s, symbol, u.actions[s][symbol]);
    if t.Lookup(s, symbol).Reduce? {
      assert t.StateOk(s) && t.ActionOk(s, symbol, t.Lookup(s, symbol));
      HandleBelow(t, c.states, symbols, t.Lookup(s, symbol).rule);
      SameReduced(t, u, act, c, t.Lookup(s, symbol).rule);
    }
  }

  lemma {:induction false} HandleBelow(t: Tables, states: seq<nat>, symbols: seq<nat>, r: nat)
    requires t.InBounds() && t.StackOk(states, symbols) && t.ReducesOk(states[|states| - 1], r)
    ensures t.Rule(r) && t.RuleInBounds(r) && |t.rhs[r]| <= |symbols| == |states| - 1
    ensures t.State(states[|symbols| - |t.rhs[r]|])
  {
    t.ReductionFindsHandle(states, symbols, r);
  }

  lemma {:induction false} SameReduced<V>(t: Tables, u: Unpacked, act: (nat, seq<V>) -> V, c: Config<V>, r: nat)
    requires t.InBounds() && u.Of(t) && c.Running? && Shaped(c)
    requires t.Rule(r) && t.RuleInBounds(r) && |t.rhs[r]| <= |c.values| && t.State(c.states[|c.values| - |t.rhs[r]|])
    ensures u.Reduced(t, act, c, r) == t.Reduced(act, c, r)
  {
    SameGoto(t, u, c.states[|c.values| - |t.rhs[r]|], t.r1[r] - t.ntokens);
    SameResult(t, u, act, c, r);
  }

  lemma {:induction false} SameGoto(t: Tables, u: Unpacked, s: nat, x: nat)
    requires t.InBounds() && u.Of(t) && s < |t.pact| && x < |t.pgoto|
    ensures u.gotos[s][x] == t.Goto(s, t.ntokens + x)
  {
    LookupGotoIs(t, s, x);
    assert GotoIs(t, s, x, u.gotos[s][x]);
  }

  lemma {:induction false} SameResult<V>(t: Tables, u: Unpacked, act: (nat, seq<V>) -> V, c: Config<V>, r: nat)
    requires t.InBounds() && c.Running? && Shaped(c) && t.Rule(r) && t.RuleInBounds(r) && |t.rhs[r]| <= |c.values|
    requires var s, x := c.states[|c.values| - |t.rhs[r]|], t.r1[r] - t.ntokens;
             s < |u.gotos| && x < |u.gotos[s]| && u.gotos[s][x] == t.Goto(s, t.r1[r])
    ensures u.Reduced(t, act, c, r) == t.Reduced(act, c, r)
  {
  }

  lemma {:induction false} SameRun<V>(t: Tables, u: Unpacked, act: (nat, seq<V>) -> V, c: Config<V>, symbols: seq<nat>,
                                      n: nat)
    requires t.Consistent() && u.Of(t) && c.Running? && Shaped(c) && t.StackOk(c.states, symbols)
    ensures u.Run(t, act, c, n) == t.Run(act, c, n)
    decreases n
  {
    if n > 0 {
      SameNext(t, u, act, c, symbols);
      if t.Next(act, c).Running? {
        var symbols' := NextOk(t, act, c, symbols);
        SameRun(t, u, act, t.Next(act, c), symbols', n - 1);
      }
    }
  }

  // From the start.
  lemma {:induction false} SameOutcome<V>(t: Tables, u: Unpacked, act: (nat, seq<V>) -> V, input: seq<(nat, V)>, n: nat)
    requires t.Consistent() && u.Of(t)
    ensures u.Run(t, act, Running([0], [], input), n) == t.Run(act, Running([0], [], input), n)
  {
    t.BottomOk();
    SameRun(t, u, act, Running([0], [], input), [], n);
  }
}
