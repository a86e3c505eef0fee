// The language of the grammar, by rewriting: an input has a parse tree exactly if the symbols of its
// tokens are derived from the start symbol.
module LrLanguage {
  import opened LrTables
  import opened LrItems

  // Which symbols the tokens of an input are; those that the scanner should not deliver are undefined.
  function SymbolsOf<V>(t: Tables, input: seq<(nat, V)>): (symbols: seq<nat>)
    ensures |symbols| == |input|
  {
    seq(|input|, i requires 0 <= i < |input| =>
      if input[i].0 < |t.translate| then t.translate[input[i].0] else t.undefToken)
  }

  // A left-hand side at i is replaced by the right-hand side.
  function Rewritten(t: Tables, a: seq<nat>, i: nat, r: nat): seq<nat>
    requires t.InBounds() && i < |a| && 0 < r < |t.rhs|
  {
    a[..i] + t.rhs[r] + a[i + 1..]
  }

  // In n steps.
  ghost predicate Derives(t: Tables, a: seq<nat>, b: seq<nat>, n: nat)
    requires t.InBounds()
    decreases n
  {
    if n == 0 then a == b
    else
      exists i: nat, r: nat {:trigger Rewritten(t, a, i, r)} ::
        && i < |a| && 0 < r < |t.rhs| && a[i] == t.r1[r] && Derives(t, Rewritten(t, a, i, r), b, n - 1)
  }

  ghost predicate InLanguage<V>(t: Tables, input: seq<(nat, V)>)
    requires t.InBounds()
  {
    exists n :: Derives(t, [t.startSymbol], SymbolsOf(t, input), n)
  }

  // The symbol that the machine looks at, and that a leaf is, is that of the token.
  lemma {:induction false} PeekIs<V>(t: Tables, rest: seq<(nat, V)>)
    requires t.InBounds()
    ensures t.Peek(rest) == if rest == [] then 0 else SymbolsOf(t, rest)[0]
    ensures rest != [] ==> t.Root(Leaf(rest[0].0, rest[0].1)) == SymbolsOf(t, rest)[0]
  {
  }

  // ---------------------------------------------------------------------------
  // Derivations
  // ---------------------------------------------------------------------------

  lemma {:induction false} DerivesOn(t: Tables, a: seq<nat>, b: seq<nat>, c: seq<nat>, m: nat, n: nat)
    requires t.InBounds() && Derives(t, a, b, m) && Derives(t, b, c, n)
    ensures Derives(t, a, c, m + n)
    decreases m
  {
    if m > 0 {
      var i: nat, r: nat :| i < |a| && 0 < r < |t.rhs| && a[i] == t.r1[r]
          && Derives(t, Rewritten(t, a, i, r), b, m - 1);
      DerivesOn(t, Rewritten(t, a, i, r), b, c, m - 1, n);
    }
  }

  // Between other symbols.
  lemma {:induction false} DerivesWithin(t: Tables, pre: seq<nat>, a: seq<nat>, b: seq<nat>, post: seq<nat>, n: nat)
    requires t.InBounds() && Derives(t, a, b, n)
    ensures Derives(t, pre + a + post, pre + b + post, n)
    decreases n
  {
    if n > 0 {
      var i: nat, r: nat :| i < |a| && 0 < r < |t.rhs| && a[i] == t.r1[r]
          && Derives(t, Rewritten(t, a, i, r), b, n - 1);
      DerivesWithin(t, pre, Rewritten(t, a, i, r), b, post, n - 1);
      RewrittenWithin(t, pre, a, post, i, r);
    }
  }

  lemma {:induction false} RewrittenWithin(t: Tables, pre: seq<nat>, a: seq<nat>, post: seq<nat>, i: nat, r: nat)
    requires t.InBounds() && i < |a| && 0 < r < |t.rhs|
    ensures (pre + a + post)[|pre| + i] == a[i]
    ensures Rewritten(t, pre + a + post, |pre| + i, r) == pre + Rewritten(t, a, i, r) + post
  {
  }

  lemma {:induction false} DerivesOne(t: Tables, r: nat)
    requires t.InBounds() && 0 < r < |t.rhs|
    ensures Derives(t, [t.r1[r]], t.rhs[r], 1)
  {
    var a := [t.r1[r]];
    assert Rewritten(t, a, 0, r) == t.rhs[r];
    assert Derives(t, Rewritten(t, a, 0, r), t.rhs[r], 0);
  }

  // ---------------------------------------------------------------------------
  // From trees
  // ---------------------------------------------------------------------------

  lemma {:induction false} SymbolsConcat<V>(t: Tables, a: seq<(nat, V)>, b: seq<(nat, V)>)
    ensures SymbolsOf(t, a + b) == SymbolsOf(t, a) + SymbolsOf(t, b)
  {
  }

  lemma {:induction false} TreeDerives<V>(t: Tables, tree: Tree<V>) returns (n: nat)
    requires t.InBounds() && t.ValidTree(tree)
    ensures Derives(t, [t.Root(tree)], SymbolsOf(t, Yield(tree)), n)
  {
    match tree
    case Leaf(kind, value) =>
      n := 0;
      PeekIs(t, [(kind, value)]);
      assert [t.Root(tree)] == SymbolsOf(t, Yield(tree));
    case Node(rule, children) =>
      n := TreesDerive(t, children);
      assert t.Roots(children) == t.rhs[rule];
      DerivesOne(t, rule);
      DerivesOn(t, [t.r1[rule]], t.rhs[rule], SymbolsOf(t, Yield(tree)), 1, n);
      n := n + 1;
  }

  lemma {:induction false} TreesDerive<V>(t: Tables, trees: seq<Tree<V>>) returns (n: nat)
    requires t.InBounds() && AllValid(t, trees)
    ensures Derives(t, t.Roots(trees), SymbolsOf(t, Yields(trees)), n)
  {
    if trees == [] {
      n := 0;
    } else {
      var k := TreesDerive(t, trees[..|trees| - 1]);
      var m := TreeDerives(t, trees[|trees| - 1]);
      AllDerived(t, trees, k, m);
      n := k + m;
    }
  }

  lemma {:induction false} AllDerived<V>(t: Tables, trees: seq<Tree<V>>, k: nat, m: nat)
    requires t.InBounds() && trees != []
    requires var before := trees[..|trees| - 1]; Derives(t, t.Roots(before), SymbolsOf(t, Yields(before)), k)
    requires var tree := trees[|trees| - 1]; Derives(t, [t.Root(tree)], SymbolsOf(t, Yield(tree)), m)
    ensures Derives(t, t.Roots(trees), SymbolsOf(t, Yields(trees)), k + m)
  {
    var before, tree := trees[..|trees| - 1], trees[|trees| - 1];
    DerivesBoth(t, t.Roots(before), SymbolsOf(t, Yields(before)), t.Root(tree), SymbolsOf(t, Yield(tree)), k, m);
    SymbolsSnoc(t, trees);
  }

  lemma {:induction false} SymbolsSnoc<V>(t: Tables, trees: seq<Tree<V>>)
    requires t.InBounds() && trees != []
    ensures var last := |trees| - 1;
            && t.Roots(trees) == t.Roots(trees[..last]) + [t.Root(trees[last])]
            && SymbolsOf(t, Yields(trees)) == SymbolsOf(t, Yields(trees[..last])) + SymbolsOf(t, Yield(trees[last]))
  {
    SymbolsConcat(t, Yields(trees[..|trees| - 1]), Yield(trees[|trees| - 1]));
  }

  lemma {:induction false} DerivesBoth(t: Tables, a: seq<nat>, b: seq<nat>, x: nat, c: seq<nat>, k: nat, m: nat)
    requires t.InBounds() && Derives(t, a, b, k) && Derives(t, [x], c, m)
    ensures Derives(t, a + [x], b + c, k + m)
  {
    DerivesWithin(t, [], a, b, [x], k);
    DerivesWithin(t, b, [x], c, [], m);
    assert [] + a + [x] == a + [x] && [] + b + [x] == b + [x] && b + [x] + [] == b + [x] && b + c + [] == b + c;
    DerivesOn(t, a + [x], b + [x], b + c, k, m);
  }

  // ---------------------------------------------------------------------------
  // To trees
  // ---------------------------------------------------------------------------

  // What is derived in n steps is the yield of trees.
  lemma {:induction false} Forest<V>(t: Tables, a: seq<nat>, input: seq<(nat, V)>, n: nat) returns (trees: seq<Tree<V>>)
    requires t.InBounds() && Derives(t, a, SymbolsOf(t, input), n)
    requires forall i :: 0 <= i < |input| ==> 0 < input[i].0
    ensures AllValid(t, trees) && t.Roots(trees) == a && Yields(trees) == input
    decreases n
  {
    if n == 0 {
      trees := Leaves(t, input);
    } else {
      var i: nat, r: nat :| && i < |a| && 0 < r < |t.rhs| && a[i] == t.r1[r]
                            && Derives(t, Rewritten(t, a, i, r), SymbolsOf(t, input), n - 1);
      var trees' := Forest(t, Rewritten(t, a, i, r), input, n - 1);
      trees := Gathered(t, a, i, r, trees');
    }
  }

  lemma {:induction false} Leaves<V>(t: Tables, input: seq<(nat, V)>) returns (trees: seq<Tree<V>>)
    requires t.InBounds() && forall i :: 0 <= i < |input| ==> 0 < input[i].0
    ensures AllValid(t, trees) && t.Roots(trees) == SymbolsOf(t, input) && Yields(trees) == input
  {
    if input == [] {
      trees := [];
    } else {
      var last := |input| - 1;
      trees := Leaves(t, input[..last]);
      var leaf := Leaf(input[last].0, input[last].1);
      YieldsSnoc(trees, leaf);
      PeekIs(t, [input[last]]);
      assert input[..last] + [input[last]] == input;
      SymbolsConcat(t, input[..last], [input[last]]);
      trees := trees + [leaf];
    }
  }

  // The trees of a right-hand side become one of its left-hand side.
  lemma {:induction false} Gathered<V>(t: Tables, a: seq<nat>, i: nat, r: nat, trees': seq<Tree<V>>)
    returns (trees: seq<Tree<V>>)
    requires t.InBounds() && i < |a| && 0 < r < |t.rhs| && a[i] == t.r1[r]
    requires AllValid(t, trees') && t.Roots(trees') == Rewritten(t, a, i, r)
    ensures AllValid(t, trees) && t.Roots(trees) == a && Yields(trees) == Yields(trees')
  {
    var j := i + |t.rhs[r]|;
    trees := trees'[..i] + [Node(r, trees'[i..j])] + trees'[j..];
    GatheredValid(t, a, i, r, trees');
    GatheredYield(trees', i, j, r);
    GatheredRoots(t, a, i, r, trees', trees);
  }

  lemma {:induction false} GatheredValid<V>(t: Tables, a: seq<nat>, i: nat, r: nat, trees: seq<Tree<V>>)
    requires t.InBounds() && i < |a| && 0 < r < |t.rhs|
    requires AllValid(t, trees) && t.Roots(trees) == Rewritten(t, a, i, r)
    ensures i + |t.rhs[r]| <= |trees|
    ensures var j := i + |t.rhs[r]|; AllValid(t, trees[..i] + [Node(r, trees[i..j])] + trees[j..])
  {
    var j := i + |t.rhs[r]|;
    var of := trees[i..j];
    assert t.Roots(trees)[i..j] == t.rhs[r] && t.Roots(of) == t.Roots(trees)[i..j];
    assert t.RuleInBounds(r);
    assert t.ValidTree(Node(r, of));
  }

  lemma {:induction false} GatheredYield<V>(trees: seq<Tree<V>>, i: nat, j: nat, r: nat)
    requires i <= j <= |trees|
    ensures Yields(trees[..i] + [Node(r, trees[i..j])] + trees[j..]) == Yields(trees)
  {
    var node := Node(r, trees[i..j]);
    assert trees[..j] + trees[j..] == trees && trees[..j][..i] == trees[..i] && trees[..j][i..] == trees[i..j];
    NodeYield(trees[..j], i, r);
    YieldsConcat(trees[..i] + [node], trees[j..]);
    YieldsConcat(trees[..j], trees[j..]);
  }

  lemma {:induction false} GatheredRoots<V>(t: Tables, a: seq<nat>, i: nat, r: nat, trees': seq<Tree<V>>,
                                            trees: seq<Tree<V>>)
    requires t.InBounds() && i < |a| && 0 < r < |t.rhs| && a[i] == t.r1[r] && t.Roots(trees') == Rewritten(t, a, i, r)
    requires trees == trees'[..i] + [Node(r, trees'[i..i + |t.rhs[r]|])] + trees'[i + |t.rhs[r]|..]
    ensures t.Roots(trees) == a
  {
    var j := i + |t.rhs[r]|;
    assert t.Roots(trees')[..i] == a[..i] && t.Roots(trees')[j..] == a[i + 1..];
    forall k | 0 <= k < |a|
      ensures t.Roots(trees)[k] == a[k]
    {
      if k < i {
        assert a[..i][k] == a[k] && t.Roots(trees')[..i][k] == t.Root(trees'[k]);
      } else if k > i {
        assert a[i + 1..][k - i - 1] == a[k] && t.Roots(trees')[j..][k - i - 1] == t.Root(trees'[j + k - i - 1]);
      }
    }
  }

  // An input has a parse tree exactly if it is in the language.
  lemma {:induction false} TreesAreDerivations<V>(t: Tables, input: seq<(nat, V)>)
    requires t.InBounds() && forall i :: 0 <= i < |input| ==> 0 < input[i].0
    ensures (exists tree: Tree<V> :: ParseTree(t, tree, input)) <==> InLanguage(t, input)
  {
    if tree: Tree<V> :| ParseTree(t, tree, input) {
      var n := TreeDerives(t, tree);
    }
    if n: nat :| Derives(t, [t.startSymbol], SymbolsOf(t, input), n) {
      var trees := Forest(t, [t.startSymbol], input, n);
      OneTreeYield(t, trees, input);
    }
  }

  lemma {:induction false} OneTreeYield<V>(t: Tables, trees: seq<Tree<V>>, input: seq<(nat, V)>)
    requires t.InBounds() && AllValid(t, trees) && t.Roots(trees) == [t.startSymbol] && Yields(trees) == input
    ensures |trees| == 1 && ParseTree(t, trees[0], input)
  {
    assert |t.Roots(trees)| == 1 && t.Roots(trees)[0] == t.Root(trees[0]);
    assert trees[..0] == [] && [] + Yield(trees[0]) == Yield(trees[0]);
  }
}
