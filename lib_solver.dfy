/**
 * src/lib/solver.ts: the tautology and contradiction checks of the library
 * copy.  Both collect the literal constants with `dfs`, list every model of
 * them with `createCombinations(literals, [true, false])` and stop at the
 * first model that decides the answer.  The evaluator is `Solver.Evaluate`.
 */
module LibSolver {
  import opened Wrappers
  import opened Ast
  import opened AstUtils
  import Solver
  import ArrayUtils

  /** Every model agrees on the given literals with one of the listed
      combinations. */
  lemma CombinationsCover(literals: seq<char>, m: Solver.Model) returns (k: nat)
    requires Solver.Distinct(literals)
    ensures k < ArrayUtils.Pow(2, |literals|)
    ensures forall c :: c in literals ==>
              Solver.Lookup(ArrayUtils.Combination(literals, [true, false], k), c) == Solver.Lookup(m, c)
  {
    var values := [true, false];
    var restricted := map c | c in literals :: Solver.Lookup(m, c);
    forall c | c in restricted ensures restricted[c] in values {
      assert restricted[c] == values[0] || restricted[c] == values[1];
    }
    ArrayUtils.CombinationsComplete(literals, values, restricted);
    k := ArrayUtils.Encode(literals, values, restricted);
  }

  /** A node whose literals are all listed has the same value under every
      model as soon as it has that value under every listed combination. */
  lemma CombinationsDecide(ast: Node, literals: seq<char>, want: bool)
    requires Solver.Distinct(literals) && Constants(ast) <= set c | c in literals
    requires forall k :: 0 <= k < ArrayUtils.Pow(2, |literals|) ==>
               Solver.Evaluate(ast, ArrayUtils.Combination(literals, [true, false], k)) == want
    ensures forall m: Solver.Model :: Solver.Evaluate(ast, m) == want
  {
    forall m: Solver.Model ensures Solver.Evaluate(ast, m) == want {
      var k := CombinationsCover(literals, m);
      Solver.EvaluateAgree(ast, ArrayUtils.Combination(literals, [true, false], k), m);
    }
  }

  /** The literals of `ast` in the order `dfs` first reports them, and every
      combination of truth values for them. */
  method Models(ast: Node) returns (literals: seq<char>, models: seq<Solver.Model>)
    ensures Solver.Distinct(literals) && (set c | c in literals) == Constants(ast)
    ensures |models| == ArrayUtils.Pow(2, |literals|)
    ensures forall k :: 0 <= k < |models| ==> models[k] == ArrayUtils.Combination(literals, [true, false], k)
  {
    var visits := Dfs(ast);
    DfsLiterals(Visit(ast, None));
    literals := Solver.CollectLiterals(visits);
    models := ArrayUtils.CreateCombinations(literals, [true, false]);
  }

  /** `isTautology` (src/lib/solver.ts:39-57). */
  method IsTautology(ast: Node) returns (r: bool)
    ensures r <==> Solver.Tautology(ast)
  {
    var literals, combinations := Models(ast);
    var i := 0;
    while i < |combinations|
      invariant i <= |combinations|
      invariant forall k :: 0 <= k < i ==> Solver.Evaluate(ast, combinations[k])
    {
      if !Solver.Evaluate(ast, combinations[i]) {
        return false;
      }
      i := i + 1;
    }
    CombinationsDecide(ast, literals, true);
    return true;
  }

  /** `isContradiction` (src/lib/solver.ts:59-77). */
  method IsContradiction(ast: Node) returns (r: bool)
    ensures r <==> Solver.Contradiction(ast)
  {
    var literals, combinations := Models(ast);
    var i := 0;
    while i < |combinations|
      invariant i <= |combinations|
      invariant forall k :: 0 <= k < i ==> !Solver.Evaluate(ast, combinations[k])
    {
      if Solver.Evaluate(ast, combinations[i]) {
        return false;
      }
      i := i + 1;
    }
    CombinationsDecide(ast, literals, false);
    return true;
  }

  /** A sentence is a contradiction exactly when its negation is a
      tautology. */
  lemma Duality(ast: Node)
    ensures Solver.Contradiction(ast) <==> Solver.Tautology(Unary(ast))
  {
    if Solver.Tautology(Unary(ast)) {
      forall m: Solver.Model ensures !Solver.Evaluate(ast, m) {
        assert Solver.Evaluate(Unary(ast), m);
      }
    }
    if Solver.Contradiction(ast) {
      forall m: Solver.Model ensures Solver.Evaluate(Unary(ast), m) {
        assert !Solver.Evaluate(ast, m);
      }
    }
  }

  /** No sentence is both a tautology and a contradiction: there is always a
      model to evaluate it under. */
  lemma NeverBoth(ast: Node)
    ensures !(Solver.Tautology(ast) && Solver.Contradiction(ast))
  {
    var none: Solver.Model := map[];
    assert Solver.Evaluate(ast, none) || !Solver.Evaluate(ast, none);
  }
}
