# propositional-logic, modelled in Dafny

The repository decides whether a propositional-logic sentence is a
tautology. A sentence goes through the following stages:

1. **Normaliser.** It is lower-cased, stripped of whitespace and split into
   characters. Synonym characters are mapped to the canonical operator
   symbols NOT, AND, OR, IMPL and EQ.
2. **Bracket grouper.** `buildHierarchy` groups the characters into a tree
   whose nesting follows the brackets `()[]{}`.
3. **Parser.** `parse` turns a (typed) tree into an AST made of `Literal`,
   `Unary` (NOT) and `Binary` (AND, OR, IMPL, EQ) nodes.
4. **Printer.** `stringify` prints an AST fully parenthesised.
5. **Walks.** `dfs` and `bfs` walk the AST, reporting each node with its
   parent.
6. **Evaluator.** `evaluate` computes the value of an AST under a model.
   A model maps literals to truth values; an unbound literal reads as false.
7. **Checkers.** `isTautology` tries every model of the sentence's
   literals. `src/solver.ts` enumerates the models with a bitmask.
   `src/lib/solver.ts` enumerates them with `createCombinations`, which
   lists every map from a list of keys to a list of values. The library
   copy also has `isContradiction`.

The repository holds two near-identical copies, `src/` and `src/lib/`.
Where the copies are the same code, the model states it once and says so.

Modules, one per source file or concern:

- `Chars`: the operator symbols, ASCII whitespace, capitals and brackets.
- `TextUtils`, `LibTextUtils`: the two normalisers.
- `HierarchySpec`, `HierarchyArena`, `Hierarchy`: the bracket grouper.
  - `HierarchySpec` is a value-level zipper that defines the tree.
  - `Hierarchy` holds the heap objects the source builds: the class
    `HierarchicalTree` and the method `BuildHierarchy`.
  - `HierarchyArena` ties the two together. The nodes are numbered in
    creation order, and an arena lists each node's items with its
    children replaced by their numbers.
- `Ast`: the AST, `parse` of both copies, and the printer of `src/ast.ts`.
- `AstUtils`: the kind predicates, `dfs`, `bfs` and the library printer.
- `Solver`: `evaluate` and the bitmask `isTautology`.
- `ArrayUtils`: `createCombinations`.
- `LibSolver`: the library `isTautology` and `isContradiction`.

The imperative parts are methods: the in-place `HierarchicalTree.Push`,
and the loops of

- `BuildHierarchy`, `Dfs`, `Bfs`,
  `CollectLiterals`, both `IsTautology`, `IsContradiction`, and
  `CreateCombinations`.
- Each is proved against a function or a predicate whose properties are
  proved as lemmas.

## Model

| member | source | states |
|---|---|---|
| Chars.ToLowerChar | src/utils/text-utils.ts:15 | lower-casing turns an ASCII capital into its small letter (code + 32), leaves every other character unchanged, and never yields a capital |
| TextUtils.ToLower | src/utils/text-utils.ts:15 | lower-casing a string keeps its length and lower-cases each character in place |
| TextUtils.StripWhitespace | src/utils/text-utils.ts:16 | deleting whitespace leaves no whitespace and exactly as many characters as the input had non-whitespace ones |
| TextUtils.StripAt | src/utils/text-utils.ts:16 | the i-th input character, if not whitespace, lands at position (number of non-whitespace characters before it): order is kept |
| TextUtils.StripFrom | src/utils/text-utils.ts:16 | every output character is a non-whitespace input character |
| TextUtils.ReplaceAll | src/utils/text-utils.ts:17-18 | the table lookup keeps the length and maps each character to its table value, or to itself when it is no key |
| TextUtils.LowerKeepsWhitespace | src/utils/text-utils.ts:15-16 | lower-casing does not change how many characters are whitespace |
| TextUtils.StripPlain | src/utils/text-utils.ts:16 | deleting whitespace from a string that has none leaves it unchanged |
| TextUtils.NormalizeWith | src/utils/text-utils.ts:14-18 | the whole chain, over any table: the output has one character per non-whitespace input character, and no whitespace when no table value is whitespace; where each character lands is `NormalizeAt` and `NormalizeFrom` |
| TextUtils.NormalizeAt | src/utils/text-utils.ts:14-18 | each non-whitespace input character appears, lower-cased and looked up, at its rank among the non-whitespace characters |
| TextUtils.NormalizeFrom | src/utils/text-utils.ts:14-18 | each output character is the lowered table image of some non-whitespace input character |
| TextUtils.NormalizeSentence | src/utils/text-utils.ts:13-19 | `normalizeSentence` is total; its output has no whitespace and one character per non-whitespace input character |
| TextUtils.NormalizeSentenceAt | src/utils/text-utils.ts:3-18 | at the rank of input character i: `~` became NOT, `→` became IMPL, any other character is only lower-cased (`P` gives `p`). With NOT being `~` and IMPL being `→`, the modelled table maps each of its keys to itself, so those two clauses describe the identity; the keys that would change a character are the lost glyphs under Left out |
| LibTextUtils.NormalizeAndSplitChars | src/lib/utils/text-utils.ts:16-22 | `normalizeAndSplitChars` is total; its output has no whitespace and one character per non-whitespace input character |
| LibTextUtils.NormalizeAndSplitCharsAt | src/lib/utils/text-utils.ts:3-21 | `v`/`V` become OR, `i`/`I` become AND, `>` and `→` become IMPL, `~` becomes NOT, and a non-key passes through lower-cased |
| LibTextUtils.NoVariableNamedIOrV | src/lib/utils/text-utils.ts:7-21 | no output character is `i`, `I`, `v` or `V`: those letters can never name a variable |
| LibTextUtils.CopiesAgree | src/lib/utils/text-utils.ts:16-22 | on sentences without `v`, `i`, `>` (in either case) the two normalisers give the same output |
| Hierarchy.HierarchicalTree.constructor | src/hierarchy.ts:2 | a new tree holds exactly the given items |
| Hierarchy.HierarchicalTree.Length | src/hierarchy.ts:4-6 | `length` is the number of items |
| Hierarchy.HierarchicalTree.Push | src/hierarchy.ts:8-10 | `push` appends exactly the one item at the end, keeps the earlier items and grows `length` by one |
| Hierarchy.OpenLevel | src/hierarchy.ts:22-27 | an opening bracket creates a fresh empty level, appends it to the current level (if any) and opens it; every other level is unchanged |
| Hierarchy.AddChar | src/hierarchy.ts:34 | any other character is appended to the current level, if one is open, and to nothing else |
| Hierarchy.BuildHierarchy | src/hierarchy.ts:17-38 | the created levels, root first, are distinct objects; each holds what its arena entry describes; and the value of the returned root is `HierarchySpec.Hierarchy(chars)` |
| HierarchyArena.RelStep | src/hierarchy.ts:21-35 | one iteration of the loop over the numbered levels keeps them tied to one step of the zipper, whatever the character |
| HierarchyArena.OpenStep | src/hierarchy.ts:22-27 | an opening bracket on the heap side matches opening a new innermost node of the zipper |
| HierarchyArena.CloseStep | src/hierarchy.ts:29-32 | a closing bracket below the root matches closing the innermost node into its parent |
| HierarchyArena.CloseRoot | src/hierarchy.ts:29-32 | the closing bracket that pops the root leaves the root's value as the finished tree |
| HierarchyArena.CharStep | src/hierarchy.ts:34 | any other character matches appending it to the innermost node |
| HierarchyArena.FinishedStep | src/hierarchy.ts:21-35 | once the root is popped, later characters touch only detached levels, and the root keeps its value |
| HierarchyArena.RelRoot | src/hierarchy.ts:37 | at the end, the value of level 0 (the returned root) is the tree of the specification, with unclosed levels nested into their parents |
| HierarchySpec.RunOpen | src/hierarchy.ts:21-35 | the root stays open exactly when no prefix has more closing than opening brackets; then the open levels number the bracket balance + 1 |
| HierarchySpec.FinishedIgnoresRest | src/hierarchy.ts:29-34 | once a closing bracket pops the root, no later character changes the returned tree |
| HierarchySpec.HierarchyFlatten | src/hierarchy.ts:21-35 | without underflow, flattening the tree left to right gives the input with all six bracket characters removed; unclosed brackets lose nothing |
| HierarchySpec.HierarchySubtrees | src/hierarchy.ts:22-27 | without underflow, the tree holds exactly one nested subtree per opening bracket |
| HierarchySpec.ShapesInterchangeable | src/hierarchy.ts:22-29 | swapping bracket shapes, position by position within the openings and within the closings, does not change the tree |
| HierarchySpec.HierarchyClean | src/hierarchy.ts:21-37 | whatever the input, no bracket character is stored as an item |
| HierarchySpec.NestedExample | src/hierarchy.ts:22-34 | `p(q)` gives `[p, [q]]` |
| HierarchySpec.ExtraCloseExample | src/hierarchy.ts:29-34 | `p)q` gives `[p]`: the extra closing bracket drops the rest |
| HierarchySpec.UnclosedExample | src/hierarchy.ts:22-37 | `(p` gives `[[p]]`: an unclosed bracket keeps its contents |
| Ast.OperatorOf | src/ast.ts:71-78 | a character names a binary operator exactly when it is AND, OR, IMPL or EQ, and that operator's symbol is the character |
| Ast.ToTree | src/ast.ts:37-43 | `toTree` returns a nested tree unchanged and wraps a raw character in a one-item tree of kind `tmp` holding just that character, so Parse later reads it as a literal |
| Ast.Parse | src/ast.ts:45-88 | `parse`: every error it returns, from whichever nested call, names a node or an item that breaks the grammar (a NOT node without exactly one nested tree, a middle item that is no binary symbol, a node with neither one nor three items); when it succeeds is `ParseAcceptsShaped`, and that every AST is reached is `ParseUnparse` |
| Ast.ParseNot | src/ast.ts:46-56 | a NOT-kind node with an item count other than one, or whose one item is a character, is rejected; otherwise the result is the negation of the child's parse |
| Ast.ParseSingle | src/ast.ts:58-66 | a one-item non-NOT node is the literal of its character, or parses exactly as its one subtree |
| Ast.ParseTernary | src/ast.ts:68-84 | a three-item node is rejected when the middle item is not AND/OR/IMPL/EQ, before its operands are examined; otherwise it is the binary node of the two operands' parses, and a raw operand is a literal |
| Ast.ParseRejectsArity | src/ast.ts:87 | a non-NOT node with 0, 2 or at least 4 items is rejected |
| Ast.ParseIgnoresKind | src/lib/ast.ts:38-76 | apart from the NOT tag, the kind name never changes whether parsing succeeds or the AST it returns (an error carries the node, kind included) |
| Ast.ParseAcceptsShaped | src/ast.ts:45-88 | parsing succeeds exactly on trees of the three accepted shapes, recursively |
| Ast.ParseUnparse | src/lib/ast.ts:38-76 | every AST is the parse of some tree (the one `Unparse` builds from it), so no AST is out of the parser's reach |
| Ast.Stringify | src/ast.ts:90-106 | `stringify` never returns the empty string; a negation's form starts with NOT and a binary node's is wrapped in parentheses; that the form determines the AST is `ReadStringify` and `StringifyInjective` |
| Ast.StringifyBalanced | src/ast.ts:90-102 | when no literal is a parenthesis, the printed form has balanced parentheses |
| Ast.ReadStringify | src/ast.ts:90-102 | a reader recovers the AST from its printed form followed by anything, as long as no literal is NOT or `(` |
| Ast.StringifyInjective | src/ast.ts:90-102 | under the same condition, two ASTs that print the same are equal |
| Ast.SnapshotParses | src/lib/hierarchy.test.ts:11-13 | the typed tree of the hierarchy snapshot parses to `(~(p ∨ ~q) → (~p ∨ q))` |
| Ast.SnapshotPrints | test/ast.test.ts:20 | that AST prints as `(~(p ∨ ~q) → (~p ∨ q))` |
| AstUtils.IsBinary | src/lib/utils/ast-utils.ts:6-8 | the tag test for IMPL, OR, AND and EQ holds exactly for binary nodes |
| AstUtils.IsUnary | src/lib/utils/ast-utils.ts:10-12 | the tag test for NOT holds exactly for negations |
| AstUtils.IsLiteral | src/lib/utils/ast-utils.ts:14-16 | the tag test for "literal" holds exactly for literals, so exactly one of the three kind predicates holds of every node |
| AstUtils.Stringify | src/lib/utils/ast-utils.ts:62-76 | the library printer, which dispatches on the kind predicates, gives the same string as the printer of src/ast.ts |
| AstUtils.ChildEntries | src/lib/utils/ast-utils.ts:28-33 | the pushed entries are the node's children (the operand of NOT; left then right of a binary node), each with the node as parent |
| AstUtils.PushChildren | src/lib/utils/ast-utils.ts:28-33 | the stack afterwards is the old stack followed by the children, left first |
| AstUtils.Dfs | src/lib/utils/ast-utils.ts:18-38 | the callback's calls are exactly the pre-order walk that visits the right subtree before the left |
| AstUtils.DfsStep | src/lib/utils/ast-utils.ts:22-36 | one iteration moves the popped node from the pending walk to the reported visits and strictly shrinks what is pending |
| AstUtils.UnseenNotVisited | src/lib/utils/ast-utils.ts:25 | on a tree that shares no subtree, a popped node has never been visited, so the `visited` test never skips one |
| AstUtils.DfsSize | src/lib/utils/ast-utils.ts:18-37 | `dfs` reports exactly one visit per node |
| AstUtils.DfsParents | src/lib/utils/ast-utils.ts:28-35 | the first visit is the root with no parent; every other visit comes with a parent of which the node is a child |
| AstUtils.DfsLiterals | src/lib/utils/ast-utils.ts:18-37 | the literal constants `dfs` reports are exactly the constants of the tree |
| AstUtils.Bfs | src/lib/utils/ast-utils.ts:40-60 | the callback's calls are exactly the level-order walk, left child before right |
| AstUtils.BfsLoopStep | src/lib/utils/ast-utils.ts:44-58 | one iteration moves the dequeued node from the pending walk to the reported visits |
| AstUtils.BfsWeight | src/lib/utils/ast-utils.ts:44-58 | each iteration removes one entry and adds only its children, so the pending node count drops by one |
| AstUtils.BfsUnseen | src/lib/utils/ast-utils.ts:47-55 | the dequeued node was never visited, and after the step the queue still holds only unvisited positions |
| AstUtils.BfsSameVisits | src/lib/utils/ast-utils.ts:18-60 | `bfs` and `dfs` report the same visits, each as often: only the order differs |
| AstUtils.BfsParents | src/lib/utils/ast-utils.ts:50-57 | `bfs` reports one visit per node, the root first with no parent, every other node with its parent |
| AstUtils.BfsLiterals | src/lib/utils/ast-utils.ts:18-60 | the constants seen by `bfs`, those seen by `dfs`, and those of the tree are the same set |
| Solver.Evaluate | src/solver.ts:17-46 | `evaluate`: the value of a node under a model, by the truth tables of the four connectives; a specification function whose behaviour is stated by `ConnectiveLaws` and `EvaluateAgree` |
| Solver.EvaluateAgree | src/lib/solver.ts:8-37 | the value of a node depends only on the model's values for literals that occur in it; a missing literal reads as false |
| Solver.ConnectiveLaws | src/solver.ts:30-39 | IMPL is false only for true ⇒ false and equals `~a ∨ b`; EQ is two-way implication; NOT is an involution; AND and OR are De Morgan duals |
| Solver.CollectLiterals | src/solver.ts:56-63 | the literals collected from the visits are distinct and are exactly the visits' literal constants |
| Solver.BitModelAt | src/solver.ts:68-79 | model i binds exactly the literals, the j-th literal to bit j of i |
| Solver.BitModelsDistinct | src/solver.ts:67-79 | distinct i below 2^n give distinct models |
| Solver.BitModelsCover | src/solver.ts:67-79 | every model agrees on the literals with model i for some i below 2^n |
| Solver.BitModelsDecide | src/solver.ts:82-88 | when all 2^n models make the sentence true, every model does |
| Solver.IsTautology | src/solver.ts:54-89 | `isTautology` returns true exactly when the sentence is true under every model (with the bound 2^n; see Findings) |
| Solver.BuildModel | src/solver.ts:68-79 | the inner loop builds exactly the model of mask i: the j-th literal gets bit j of i |
| Solver.JsShiftOne | src/solver.ts:67 | `1 << n` as JavaScript computes it is the signed 32-bit number congruent to 2^(n mod 32), and equals 2^n below 31 |
| Solver.JsBitModelSmall | src/solver.ts:74 | up to 32 literals, `(i >> j) & 1` with the shift count taken mod 32 builds the same models as bit j of i |
| Solver.AsWrittenTautology | src/solver.ts:67-88 | the verdict of the loop as written (bound `1 << n`, bits `(i >> j) & 1`) is, below 31 literals, the verdict over all 2^n bitmask models |
| Solver.AsWrittenSmall | src/solver.ts:54-89 | below 31 distinct literals the loop as written accepts exactly the tautologies |
| Solver.AsWrittenThirtyOne | src/solver.ts:67 | with 31 literals, `1 << 31` is negative, and the loop as written accepts every sentence |
| Solver.WrappedBoundAccepts | src/solver.ts:67 | some sentence with 31 distinct literals, all of which `normalizeSentence` leaves unchanged (the 26 letters and the digits 0 to 4), is not a tautology but is accepted by the loop as written |
| Solver.TautologyExamples | test/solver.test.ts:16-33 | `p ∨ ~p`, `~(p ∧ ~p)` and `p → p` are tautologies |
| Solver.NonTautologyExamples | test/solver.test.ts:90-131 | `p`, `p ∧ q`, `p ∨ q`, `p → q`, `p ≡ q`, `~p` and `p ∧ ~p` are not |
| ArrayUtils.CreateCombinations | src/lib/utils/array-utils.ts:1-24 | `createCombinations` returns exactly `len(values) ^ len(keys)` maps, map i being the combination of index i |
| ArrayUtils.BuildCombination | src/lib/utils/array-utils.ts:6-18 | one pass of the outer loop builds, key by key from the digits of i in base `len(values)`, exactly the combination of index i |
| ArrayUtils.Combination | src/lib/utils/array-utils.ts:6-18 | the map of index i: each key gets the value at its digit of i in base `len(values)`, a repeated key keeping its last value; a specification function whose behaviour is stated by `CombinationKeys`, `CombinationDigit`, `CombinationsComplete` and `CombinationsUnique` |
| ArrayUtils.CombinationKeys | src/lib/utils/array-utils.ts:9-15 | with at least one value, every map binds exactly the keys, each to one of the values |
| ArrayUtils.CombinationDigit | src/lib/utils/array-utils.ts:7-18 | with distinct keys, map i gives the k-th key the value at digit k of i in base len(values): the first key varies fastest |
| ArrayUtils.DigitPow | src/lib/utils/array-utils.ts:7-18 | digit k of i is `floor(i / len^k) mod len` |
| ArrayUtils.CombinationsComplete | src/lib/utils/array-utils.ts:5-20 | every map from the distinct keys into the values is listed, at an index below the count |
| ArrayUtils.CombinationsUnique | src/lib/utils/array-utils.ts:5-20 | with distinct keys and distinct values, no map is listed twice |
| ArrayUtils.EmptyInputs | src/lib/utils/array-utils.ts:3 | no keys give exactly one empty map; keys without values give no maps |
| ArrayUtils.BooleanExample | src/lib/utils/array-utils.test.ts:6-25 | keys p, q over true, false give the four maps in the order the test expects |
| LibSolver.Models | src/lib/solver.ts:40-48 | the literals collected by `dfs` are distinct and are exactly the sentence's constants, and the combinations over [true, false] number 2^n |
| LibSolver.CombinationsDecide | src/lib/solver.ts:50-56 | when every listed combination gives the sentence the same value, every model does |
| LibSolver.IsTautology | src/lib/solver.ts:39-57 | returns true exactly when the sentence is true under every model |
| LibSolver.IsContradiction | src/lib/solver.ts:59-77 | returns true exactly when the sentence is false under every model |
| LibSolver.Duality | src/lib/solver.ts:39-77 | a sentence is a contradiction exactly when its negation is a tautology |
| LibSolver.NeverBoth | src/lib/solver.ts:39-77 | no sentence is both a tautology and a contradiction |

## Findings

| source | as written | input that shows it | evidently intended | confidence | as-written member | corrected member |
|---|---|---|---|---|---|---|
| src/solver.ts:67 | the loop bound is `1 << literalCount`, a 32-bit shift whose count is taken mod 32 and whose result is signed | a sentence with 31 distinct literals, e.g. the conjunction of the 26 letters and 5 digits `a`…`z`, `0`…`4`: `1 << 31` is negative, no model is tried, and the sentence is reported a tautology (with 32 literals `1 << 32` is 1, so only one model is tried) | try all 2^n models for every n | not executed | Solver.WrappedBoundAccepts | Solver.IsTautology |

## Left out

- Solver.IsTautology: it uses the bound 2^n on unbounded integers rather than JavaScript's 32-bit `1 << n`. The loop as written is modelled by `Solver.JsShiftOne` (the bound), `Solver.JsBitModel` (the bits, with the shift count taken mod 32) and `Solver.AsWrittenTautology`; see Findings.
- Operator symbols: src/constants.ts is not part of this model.
  - NOT is `~`. OR is `∨` and IMPL is `→`, as the test snapshots print them.
  - AND and EQ are `∧` and `≡`.
  - Only their being distinct, non-bracket, non-whitespace and lower-case matters.
- Table keys: the replacement tables hold keys whose glyphs are lost in the source text (src/utils/text-utils.ts:5-8, src/lib/utils/text-utils.ts:5-11). Those keys are not modelled.
- Lower-casing and whitespace are ASCII-only. Full Unicode `toLowerCase`, the `\s` class and UTF-16 `split('')` are not modelled.
- The typed tree: `parse` reads `node.type`, and `toTree` builds a `HierarchicalTree` with a kind and items. That tree, and the folding of each NOT into a NOT-kind node, come from src/lib/hierarchy.ts, which is not part of this model.
  - The parser's input is therefore its own datatype `Ast.TypedTree`.
  - Nothing links `BuildHierarchy` to `Parse`.
- The `!left || !right` check of `parse` cannot fail once the items are characters and trees, so it has no error case.
- Error messages: `parse`'s errors are variants of `Ast.ParseError` that carry the offending node, not message strings. The "unknown node/operator" throws are unreachable with exhaustive matches.
- One model per duplicated function:
  - `evaluate`, `parse` and the literal-collecting callback are identical in both copies and are modelled once each: `Solver.Evaluate`, `Ast.Parse`, `Solver.CollectLiterals`.
  - src/solver.ts imports `bfs` from src/utils/ast-utils.ts, which is not part of this model. It is modelled by the `bfs` of src/lib/utils/ast-utils.ts.
- Node identity in `dfs` and `bfs`:
  - The `visited` sets compare node objects by identity. They are modelled as sets of positions in a tree that shares no subtree.
  - A caller-built AST that shares subtree objects is not modelled.
  - The callbacks are modelled as the returned list of visits.
- `Stack` and `Queue` come from external libraries. They are modelled as sequences.
- `createCombinations` skips `undefined` values (src/lib/utils/array-utils.ts:13). The model's value list holds no `undefined`, so every lookup is set. With no values, the lookup at `NaN` is undefined, and the model binds no key (`ArrayUtils.Combination`).
- JavaScript `Map` insertion order and `**` on floating point are not modelled. Maps are Dafny maps, and the count is `ArrayUtils.Pow` on naturals.
- The `[Symbol.iterator]` of `HierarchicalTree` (src/hierarchy.ts:12-14) only iterates `items` and is not modelled separately. The class holds characters only, as `buildHierarchy` uses it.
- Hierarchy.BuildHierarchy: it does not state that the created objects are fresh. It states that they are pairwise distinct, which is all the value of the root depends on.
- src/index.ts is I/O (a hard-coded sentence and console output) and is not part of this model.
