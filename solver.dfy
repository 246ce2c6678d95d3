/**
 * src/solver.ts: the evaluator of an AST under a model, and the
 * brute-force tautology check that enumerates all 2^n models of the n
 * distinct literals with a bitmask.
 *
 * A model is a map from literal constants to truth values; a literal the
 * model does not bind reads as false.  The evaluator of src/lib/solver.ts
 * is the same function and is not written a second time.
 */
module Solver {
  import opened Wrappers
  import opened Chars
  import opened Ast
  import opened AstUtils
  import opened TextUtils

  type Model = map<char, bool>

  /** `model.get(c) ?? false`. */
  function Lookup(m: Model, c: char): bool
  {
    if c in m then m[c] else false
  }

  /** `evaluate` (src/solver.ts:17-46). */
  function Evaluate(n: Node, m: Model): bool
  {
    match n
    case Literal(c) => Lookup(m, c)
    case Unary(a) => !Evaluate(a, m)
    case Binary(op, l, r) =>
      var lv, rv := Evaluate(l, m), Evaluate(r, m);
      match op
      case And => lv && rv
      case Or => lv || rv
      case Impl => !lv || rv
      case Eq => lv == rv
  }

  /** True under every model. */
  ghost predicate Tautology(n: Node)
  {
    forall m: Model :: Evaluate(n, m)
  }

  /** False under every model. */
  ghost predicate Contradiction(n: Node)
  {
    forall m: Model :: !Evaluate(n, m)
  }

  /** The value of a node depends only on what the model says about the
      literals that occur in it. */
  lemma {:induction false} EvaluateAgree(n: Node, m1: Model, m2: Model)
    requires forall c :: c in Constants(n) ==> Lookup(m1, c) == Lookup(m2, c)
    ensures Evaluate(n, m1) == Evaluate(n, m2)
  {
    match n
    case Literal(_) =>
    case Unary(a) => EvaluateAgree(a, m1, m2);
    case Binary(_, l, r) =>
      EvaluateAgree(l, m1, m2);
      EvaluateAgree(r, m1, m2);
  }

  /** The connectives in terms of each other: an implication is false only
      when its left side holds and its right side does not, an equivalence
      holds exactly when both implications do, and a double negation
      cancels. */
  lemma ConnectiveLaws(a: Node, b: Node, m: Model)
    ensures Evaluate(Binary(Impl, a, b), m) == Evaluate(Binary(Or, Unary(a), b), m)
    ensures !Evaluate(Binary(Impl, a, b), m) <==> Evaluate(a, m) && !Evaluate(b, m)
    ensures Evaluate(Binary(Eq, a, b), m)
         == Evaluate(Binary(And, Binary(Impl, a, b), Binary(Impl, b, a)), m)
    ensures Evaluate(Unary(Unary(a)), m) == Evaluate(a, m)
    ensures Evaluate(Binary(And, a, b), m) == !Evaluate(Binary(Or, Unary(a), Unary(b)), m)
  {
  }

  predicate Distinct(s: seq<char>)
  {
    forall i, j :: 0 <= i < j < |s| ==> s[i] != s[j]
  }

  /** The callback of `isTautology` (src/solver.ts:56-63, and the same one
      in src/lib/solver.ts:40-46): every literal constant goes into a set,
      which is then read out in insertion order. */
  method CollectLiterals(visits: seq<Visit>) returns (literals: seq<char>)
    ensures Distinct(literals)
    ensures (set c | c in literals) == LiteralSet(visits)
  {
    literals := [];
    var k := 0;
    while k < |visits|
      invariant k <= |visits|
      invariant Distinct(literals)
      invariant (set c | c in literals) == LiteralSet(visits[..k])
    {
      var node := visits[k].node;
      assert visits[..k + 1] == visits[..k] + [visits[k]];
      LiteralSetAppend(visits[..k], [visits[k]]);
      LiteralSetSingle(visits[k]);
      if IsLiteral(node) && node.constant !in literals {
        literals := literals + [node.constant];
      }
      k := k + 1;
    }
    assert visits[..k] == visits;
  }

  /** 2^n, the value of `1 << n` while n < 31. */
  function Pow2(n: nat): (r: nat)
    ensures r > 0
  {
    if n == 0 then 1 else 2 * Pow2(n - 1)
  }

  /** `(i >> j) & 1` for a non-negative `i`: bit `j` of `i`. */
  function Bit(i: nat, j: nat): bool
  {
    if j == 0 then i % 2 == 1 else Bit(i / 2, j - 1)
  }

  /** The model built for bitmask `i`: the j-th literal gets bit j of i. */
  function BitModel(literals: seq<char>, i: nat): Model
  {
    if literals == [] then map[]
    else BitModel(literals[..|literals| - 1], i)[literals[|literals| - 1] := Bit(i, |literals| - 1)]
  }

  /** Every model binds every literal, the j-th to bit j of the mask. */
  lemma {:induction false} BitModelAt(literals: seq<char>, i: nat)
    requires Distinct(literals)
    ensures BitModel(literals, i).Keys == set c | c in literals
    ensures forall j :: 0 <= j < |literals| ==> BitModel(literals, i)[literals[j]] == Bit(i, j)
  {
    if literals != [] {
      var init := literals[..|literals| - 1];
      BitModelAt(init, i);
      assert literals == init + [literals[|literals| - 1]];
      forall j | 0 <= j < |literals| - 1
        ensures BitModel(literals, i)[literals[j]] == Bit(i, j)
      {
        assert init[j] == literals[j];
      }
    }
  }

  /** The bitmask whose bits are `bs`, lowest bit first. */
  function Index(bs: seq<bool>): nat
  {
    if bs == [] then 0 else (if bs[0] then 1 else 0) + 2 * Index(bs[1..])
  }

  lemma {:induction false} IndexBits(bs: seq<bool>)
    ensures Index(bs) < Pow2(|bs|)
    ensures forall j :: 0 <= j < |bs| ==> Bit(Index(bs), j) == bs[j]
  {
    if bs != [] {
      IndexBits(bs[1..]);
      var i := Index(bs);
      assert i / 2 == Index(bs[1..]);
      forall j | 0 < j < |bs| ensures Bit(i, j) == bs[j] {
        assert bs[1..][j - 1] == bs[j];
      }
    }
  }

  /** Below 2^n a mask is determined by its n lowest bits. */
  lemma {:induction false} BitsInjective(n: nat, i: nat, k: nat)
    requires i < Pow2(n) && k < Pow2(n)
    requires forall j :: 0 <= j < n ==> Bit(i, j) == Bit(k, j)
    ensures i == k
  {
    if n > 0 {
      forall j | 0 <= j < n - 1 ensures Bit(i / 2, j) == Bit(k / 2, j) {
        assert Bit(i, j + 1) == Bit(k, j + 1);
      }
      BitsInjective(n - 1, i / 2, k / 2);
      assert Bit(i, 0) == Bit(k, 0);
    }
  }

  /** Distinct masks below 2^n give distinct models. */
  lemma BitModelsDistinct(literals: seq<char>, i: nat, k: nat)
    requires Distinct(literals)
    requires i < Pow2(|literals|) && k < Pow2(|literals|) && i != k
    ensures BitModel(literals, i) != BitModel(literals, k)
  {
    BitModelAt(literals, i);
    BitModelAt(literals, k);
    if BitModel(literals, i) == BitModel(literals, k) {
      forall j | 0 <= j < |literals| ensures Bit(i, j) == Bit(k, j) {
        assert BitModel(literals, i)[literals[j]] == BitModel(literals, k)[literals[j]];
      }
      BitsInjective(|literals|, i, k);
    }
  }

  /** Every model agrees on the given literals with one of the 2^n bitmask
      models. */
  lemma BitModelsCover(literals: seq<char>, m: Model) returns (k: nat)
    requires Distinct(literals)
    ensures k < Pow2(|literals|)
    ensures forall c :: c in literals ==> Lookup(BitModel(literals, k), c) == Lookup(m, c)
  {
    var bs := seq(|literals|, j requires 0 <= j < |literals| => Lookup(m, literals[j]));
    IndexBits(bs);
    k := Index(bs);
    BitModelAt(literals, k);
  }

  /** A node whose literals are all listed is a tautology as soon as it
      holds under the 2^n bitmask models. */
  lemma BitModelsDecide(ast: Node, literals: seq<char>)
    requires Distinct(literals) && Constants(ast) <= set c | c in literals
    requires forall k :: 0 <= k < Pow2(|literals|) ==> Evaluate(ast, BitModel(literals, k))
    ensures Tautology(ast)
  {
    forall m: Model ensures Evaluate(ast, m) {
      var k := BitModelsCover(literals, m);
      EvaluateAgree(ast, BitModel(literals, k), m);
    }
  }

  /** `isTautology` (src/solver.ts:54-89), with the literals collected by
      `bfs` and the loop bound read as 2^n (see `JsShiftOne` for the bound
      as JavaScript computes it). */
  method IsTautology(ast: Node) returns (r: bool)
    ensures r <==> Tautology(ast)
  {
    var visits := Bfs(ast);
    BfsLiterals(Visit(ast, None));
    var literals := CollectLiterals(visits);
    var count := |literals|;
    var i := 0;
    while i < Pow2(count)
      invariant forall k :: 0 <= k < i ==> Evaluate(ast, BitModel(literals, k))
    {
      var model := BuildModel(literals, i);
      if !Evaluate(ast, model) {
        return false;
      }
      i := i + 1;
    }
    BitModelsDecide(ast, literals);
    return true;
  }

  /** The body of the outer loop (src/solver.ts:68-79): the model of mask
      `i`, one literal at a time, the j-th literal getting bit j of `i`. */
  method BuildModel(literals: seq<char>, i: nat) returns (model: Model)
    ensures model == BitModel(literals, i)
  {
    model := map[];
    var j := 0;
    while j < |literals|
      invariant j <= |literals|
      invariant model == BitModel(literals[..j], i)
    {
      var literal := literals[j];
      if Bit(i, j) {
        model := model[literal := true];
      } else {
        model := model[literal := false];
      }
      assert literals[..j + 1][..j] == literals[..j];
      j := j + 1;
    }
    assert literals[..j] == literals;
  }

  lemma {:induction false} Pow2Monotone(a: nat, b: nat)
    requires a <= b
    ensures Pow2(a) <= Pow2(b)
    decreases b
  {
    if a < b {
      Pow2Monotone(a, b - 1);
    }
  }

  /** 2^(n mod 32) is at most 2^31, and 2^n is below 2^31 for n < 31. */
  lemma Pow2Bounds(n: nat)
    ensures Pow2(n % 32) <= 0x8000_0000
    ensures n < 31 ==> Pow2(n) < 0x8000_0000
  {
    Pow2ThirtyOne();
    Pow2Monotone(n % 32, 31);
    if n < 31 {
      Pow2Monotone(n, 30);
    }
  }

  /** `1 << n` as JavaScript computes it: the shift count is taken modulo
      32 and the result read as a signed 32-bit integer.  It is the signed
      32-bit number congruent to 2^(n mod 32), and 2^n itself below 31. */
  function JsShiftOne(n: nat): (r: int)
    ensures -0x8000_0000 <= r < 0x8000_0000
    ensures (r - Pow2(n % 32)) % 0x1_0000_0000 == 0
    ensures n < 31 ==> r == Pow2(n)
  {
    Pow2Bounds(n);
    var u := Pow2(n % 32);
    if u >= 0x8000_0000 then u - 0x1_0000_0000 else u
  }

  /** The model the inner loop of src/solver.ts:71-79 builds for mask `i`
      as written: `(i >> j) & 1` takes the shift count `j` modulo 32, so
      from the 33rd literal on the bits repeat. */
  function JsBitModel(literals: seq<char>, i: nat): Model
  {
    if literals == [] then map[]
    else JsBitModel(literals[..|literals| - 1], i)[literals[|literals| - 1] := Bit(i, (|literals| - 1) % 32)]
  }

  /** Up to 32 literals the shift count is not reduced. */
  lemma {:induction false} JsBitModelSmall(literals: seq<char>)
    ensures |literals| <= 32 ==> forall i: nat :: JsBitModel(literals, i) == BitModel(literals, i)
  {
    if literals != [] {
      JsBitModelSmall(literals[..|literals| - 1]);
    }
  }

  /** The verdict of the loop of src/solver.ts:67-88 as written, with the
      bound `1 << n` and the bits `(i >> j) & 1`.  Below 31 literals it is
      the verdict over the 2^n models that `IsTautology` checks. */
  ghost predicate AsWrittenTautology(ast: Node, literals: seq<char>)
    ensures |literals| < 31 && AsWrittenTautology(ast, literals) ==>
              forall k: nat :: k < Pow2(|literals|) ==> Evaluate(ast, BitModel(literals, k))
    ensures |literals| < 31 && (forall k: nat :: k < Pow2(|literals|) ==> Evaluate(ast, BitModel(literals, k))) ==>
              AsWrittenTautology(ast, literals)
  {
    AsWrittenLoop(ast, literals);
    forall k: nat :: k < JsShiftOne(|literals|) ==> Evaluate(ast, JsBitModel(literals, k))
  }

  /** Below 31 literals the loop as written runs over the same masks and
      builds the same models as the corrected one. */
  lemma AsWrittenLoop(ast: Node, literals: seq<char>)
    ensures |literals| < 31 && (forall k: nat :: k < JsShiftOne(|literals|) ==> Evaluate(ast, JsBitModel(literals, k))) ==>
              forall k: nat :: k < Pow2(|literals|) ==> Evaluate(ast, BitModel(literals, k))
    ensures |literals| < 31 && (forall k: nat :: k < Pow2(|literals|) ==> Evaluate(ast, BitModel(literals, k))) ==>
              forall k: nat :: k < JsShiftOne(|literals|) ==> Evaluate(ast, JsBitModel(literals, k))
  {
    if |literals| < 31 {
      JsBitModelSmall(literals);
      assert JsShiftOne(|literals|) == Pow2(|literals|);
    }
  }

  /** Below 31 literals the loop as written decides tautology correctly. */
  lemma AsWrittenSmall(ast: Node, literals: seq<char>)
    requires Distinct(literals) && Constants(ast) <= set c | c in literals
    requires |literals| < 31
    ensures AsWrittenTautology(ast, literals) <==> Tautology(ast)
  {
    if AsWrittenTautology(ast, literals) {
      BitModelsDecide(ast, literals);
    }
  }

  lemma Pow2ThirtyOne()
    ensures Pow2(31) == 0x8000_0000
  {
    assert Pow2(8) == 256;
    assert Pow2(16) == 256 * Pow2(8);
    assert Pow2(24) == 256 * Pow2(16);
    assert Pow2(31) == 128 * Pow2(24);
  }

  /** With 31 literals `1 << 31` is negative, the loop runs no iteration and
      every sentence is reported a tautology. */
  lemma AsWrittenThirtyOne(ast: Node, literals: seq<char>)
    requires |literals| == 31
    ensures JsShiftOne(|literals|) < 0
    ensures AsWrittenTautology(ast, literals)
  {
    Pow2ThirtyOne();
  }

  /** The conjunction of literals. */
  function Conjunction(cs: seq<char>): Node
    requires cs != []
  {
    if |cs| == 1 then Literal(cs[0]) else Binary(And, Literal(cs[0]), Conjunction(cs[1..]))
  }

  lemma {:induction false} ConjunctionFacts(cs: seq<char>)
    requires cs != []
    ensures Constants(Conjunction(cs)) == set c | c in cs
    ensures !Evaluate(Conjunction(cs), map[])
  {
    if |cs| > 1 {
      ConjunctionFacts(cs[1..]);
      assert cs == [cs[0]] + cs[1..];
    }
  }

  /** A sentence with 31 distinct literals that is not a tautology but that
      the loop as written accepts: the conjunction of the 26 letters and
      the digits 0 to 4, all of which the normaliser of src/utils/text-utils.ts
      leaves as they are. */
  lemma WrappedBoundAccepts()
    ensures exists ast, literals ::
              Distinct(literals) && Constants(ast) == (set c | c in literals)
              && NormalizeSentence(literals) == literals
              && AsWrittenTautology(ast, literals) && !Tautology(ast)
  {
    var literals := seq(31, i requires 0 <= i < 31 => if i < 26 then (97 + i) as char else (48 + i - 26) as char);
    assert Distinct(literals);
    forall i | 0 <= i < 31 ensures !IsWhitespace(literals[i]) && !IsUpper(literals[i]) && literals[i] !in ReplacementMap {
    }
    assert ToLower(literals) == literals;
    StripPlain(literals);
    assert ReplaceAll(ReplacementMap, literals) == literals;
    var ast := Conjunction(literals);
    ConjunctionFacts(literals);
    AsWrittenThirtyOne(ast, literals);
    assert !Evaluate(ast, map[]);
  }

  /** The sentences of test/solver.test.ts:16-33 are tautologies. */
  lemma TautologyExamples()
    ensures Tautology(Binary(Or, Literal('p'), Unary(Literal('p'))))
    ensures Tautology(Unary(Binary(And, Literal('p'), Unary(Literal('p')))))
    ensures Tautology(Binary(Impl, Literal('p'), Literal('p')))
  {
    var n := Unary(Binary(And, Literal('p'), Unary(Literal('p'))));
    forall m: Model ensures Evaluate(n, m) {
      assert Evaluate(Binary(And, Literal('p'), Unary(Literal('p'))), m) == (Lookup(m, 'p') && !Lookup(m, 'p'));
    }
  }

  /** Sentences of test/solver.test.ts:90-131 are not tautologies: each one
      fails under some model. */
  lemma NonTautologyExamples()
    ensures !Tautology(Literal('p'))
    ensures !Tautology(Binary(And, Literal('p'), Literal('q')))
    ensures !Tautology(Binary(Or, Literal('p'), Literal('q')))
    ensures !Tautology(Binary(Impl, Literal('p'), Literal('q')))
    ensures !Tautology(Binary(Eq, Literal('p'), Literal('q')))
    ensures !Tautology(Unary(Literal('p')))
    ensures !Tautology(Binary(And, Literal('p'), Unary(Literal('p'))))
  {
    var none: Model := map[];
    var justP: Model := map['p' := true];
    assert !Evaluate(Literal('p'), none);
    assert !Evaluate(Binary(And, Literal('p'), Literal('q')), none);
    assert !Evaluate(Binary(Or, Literal('p'), Literal('q')), none);
    assert !Evaluate(Binary(Impl, Literal('p'), Literal('q')), justP);
    assert !Evaluate(Binary(Eq, Literal('p'), Literal('q')), justP);
    assert !Evaluate(Unary(Literal('p')), justP);
    assert !Evaluate(Binary(And, Literal('p'), Unary(Literal('p'))), none);
  }
}
