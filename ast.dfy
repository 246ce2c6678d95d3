/**
 * The abstract syntax tree of src/ast.ts and src/lib/ast.ts, the parser that
 * turns a typed bracket tree into it, and the fully parenthesised printer of
 * src/ast.ts.
 *
 * Both files hold the same types and the same `parse`, character for
 * character apart from the helper names `literal`/`binary` versus
 * `lit`/`bin`; `Parse` models both.  The tree `parse` consumes carries a kind
 * name (`root`, `node`, `tmp`, or the NOT symbol for a folded negation) and
 * its items; it is the typed tree of src/lib/hierarchy.ts, which is not part
 * of this model, so it is given here as its own datatype.
 */
module Ast {
  import opened Chars
  import opened Wrappers

  datatype BinaryOp = And | Or | Impl | Eq

  /** The canonical symbol stored as the node's `__type`. */
  function Symbol(op: BinaryOp): char
  {
    match op
    case And => AND
    case Or => OR
    case Impl => IMPL
    case Eq => EQ
  }

  /** The operator a character names, if it is one of AND, OR, IMPL, EQ. */
  function OperatorOf(c: char): (r: Option<BinaryOp>)
    ensures r.Some? <==> c in {AND, OR, IMPL, EQ}
    ensures r.Some? ==> Symbol(r.value) == c
  {
    if c == IMPL then Some(Impl)
    else if c == OR then Some(Or)
    else if c == AND then Some(And)
    else if c == EQ then Some(Eq)
    else None
  }

  /** `Node = UnaryOperator | BinaryOperator | Literal`. */
  datatype Node =
    | Literal(constant: char)
    | Unary(node: Node)
    | Binary(op: BinaryOp, left: Node, right: Node)

  /** A typed bracket tree: a kind name and items, each a raw character or a
      nested tree. */
  datatype Item = Raw(c: char) | Nested(tree: TypedTree)
  datatype TypedTree = TypedTree(kind: string, items: seq<Item>)

  /** `toTree`: a nested tree stays as it is; a raw character is wrapped in
      a one-item tree of kind `tmp`. */
  function ToTree(item: Item): (t: TypedTree)
    ensures item.Nested? ==> t == item.tree
    ensures item.Raw? ==> t.kind == "tmp" && t.items == [item]
    ensures Rank(t) <= ItemRank(item) + 1
  {
    match item
    case Nested(u) => u
    case Raw(_) =>
      assert [item][1..] == [];
      assert ItemsRank([item]) == ItemRank(item) + ItemsRank([]);
      TypedTree("tmp", [item])
  }

  /** A size measure under which every recursive call of Parse is smaller,
      the wrapping of a raw operand by ToTree included. */
  function Rank(t: TypedTree): nat
    decreases t
  {
    1 + ItemsRank(t.items)
  }

  function ItemsRank(items: seq<Item>): nat
    decreases items
  {
    if items == [] then 0 else ItemRank(items[0]) + ItemsRank(items[1..])
  }

  function ItemRank(item: Item): nat
    decreases item
  {
    match item
    case Raw(_) => 1
    case Nested(u) => 1 + Rank(u)
  }

  lemma {:induction false} ItemsRankBound(items: seq<Item>, i: nat)
    requires i < |items|
    ensures ItemRank(items[i]) + |items| - 1 <= ItemsRank(items)
  {
    if i > 0 {
      ItemsRankBound(items[1..], i - 1);
    } else if |items| > 1 {
      ItemsRankBound(items[1..], 0);
    }
  }

  datatype ParseError =
    | NotNormalized(node: TypedTree)   // "Invalid Tree. Seems like NOT were not normalized."
    | InvalidOperator(operator: Item)  // "Invalid operator: ..."
    | Unparsable(node: TypedTree)      // "Unable to parse node: ..."

  datatype ParseResult = Ok(ast: Node) | Err(error: ParseError)

  /** What each error reports is indeed wrong with it: a NOT node that
      does not hold exactly one nested tree, a middle item that is not one
      of the four binary symbols, or a node with neither one nor three
      items. */
  predicate Offends(e: ParseError)
  {
    match e
    case NotNormalized(u) => u.kind == [NOT] && (|u.items| != 1 || u.items[0].Raw?)
    case InvalidOperator(op) => !op.Raw? || op.c !in {AND, OR, IMPL, EQ}
    case Unparsable(u) => u.kind != [NOT] && |u.items| !in {1, 3}
  }

  /** `parse` (src/ast.ts:45-88, src/lib/ast.ts:38-76).  Whichever nested
      call fails, the error that comes out names a node or an item that
      breaks the grammar; when parsing succeeds is stated by
      `ParseAcceptsShaped`. */
  function Parse(t: TypedTree): (r: ParseResult)
    ensures r.Err? ==> Offends(r.error)
    decreases Rank(t)
  {
    if t.kind == [NOT] then
      if |t.items| != 1 || t.items[0].Raw? then Err(NotNormalized(t))
      else
        ItemsRankBound(t.items, 0);
        match Parse(t.items[0].tree)
        case Ok(n) => Ok(Unary(n))
        case Err(e) => Err(e)
    else if |t.items| == 1 && t.items[0].Raw? then Ok(Literal(t.items[0].c))
    else if |t.items| == 1 then
      ItemsRankBound(t.items, 0);
      Parse(t.items[0].tree)
    else if |t.items| == 3 then
      var operator := t.items[1];
      if !operator.Raw? || OperatorOf(operator.c).None? then Err(InvalidOperator(operator))
      else
        ItemsRankBound(t.items, 0);
        ItemsRankBound(t.items, 2);
        match Parse(ToTree(t.items[0]))
        case Err(e) => Err(e)
        case Ok(l) =>
          match Parse(ToTree(t.items[2]))
          case Err(e) => Err(e)
          case Ok(r) => Ok(Binary(OperatorOf(operator.c).value, l, r))
    else Err(Unparsable(t))
  }

  /** A NOT-kind node parses only when it has exactly one item and that item
      is a nested tree; the result is the negation of that tree's parse. */
  lemma ParseNot(t: TypedTree)
    requires t.kind == [NOT]
    ensures (|t.items| != 1 || t.items[0].Raw?) ==> Parse(t) == Err(NotNormalized(t))
    ensures |t.items| == 1 && t.items[0].Nested? ==>
              Parse(t) == match Parse(t.items[0].tree)
                          case Ok(n) => Ok(Unary(n))
                          case Err(e) => Err(e)
  {
  }

  /** Any other single raw character becomes a literal of exactly that
      character, operator symbols included; a single nested tree is parsed
      as if the wrapping were not there. */
  lemma ParseSingle(kind: string, item: Item)
    requires kind != [NOT]
    ensures item.Raw? ==> Parse(TypedTree(kind, [item])) == Ok(Literal(item.c))
    ensures item.Nested? ==> Parse(TypedTree(kind, [item])) == Parse(item.tree)
  {
  }

  /** A three-item node: the middle item is checked first, then the left and
      the right operand are parsed, raw operands as one-item `tmp` trees. */
  lemma ParseTernary(kind: string, left: Item, operator: Item, right: Item)
    requires kind != [NOT]
    ensures var r := Parse(TypedTree(kind, [left, operator, right]));
            && (!operator.Raw? || operator.c !in {AND, OR, IMPL, EQ} ==> r == Err(InvalidOperator(operator)))
            && (operator.Raw? && operator.c in {AND, OR, IMPL, EQ} ==>
                  (r.Ok? <==> Parse(ToTree(left)).Ok? && Parse(ToTree(right)).Ok?)
                  && (r.Ok? ==> r.ast == Binary(OperatorOf(operator.c).value,
                                                 Parse(ToTree(left)).ast, Parse(ToTree(right)).ast)))
            && (left.Raw? ==> Parse(ToTree(left)) == Ok(Literal(left.c)))
  {
  }

  /** Every other arity is rejected. */
  lemma ParseRejectsArity(t: TypedTree)
    requires t.kind != [NOT] && |t.items| !in {1, 3}
    ensures Parse(t) == Err(Unparsable(t))
  {
  }

  /** Apart from the NOT tag, the kind name never affects the result. */
  lemma ParseIgnoresKind(items: seq<Item>, k1: string, k2: string)
    requires k1 != [NOT] && k2 != [NOT]
    ensures Parse(TypedTree(k1, items)).Ok? == Parse(TypedTree(k2, items)).Ok?
    ensures Parse(TypedTree(k1, items)).Ok? ==>
              Parse(TypedTree(k1, items)) == Parse(TypedTree(k2, items))
  {
  }

  /** The grammar `parse` accepts, written as a predicate. */
  predicate Shaped(t: TypedTree)
    decreases Rank(t)
  {
    if t.kind == [NOT] then
      |t.items| == 1 && t.items[0].Nested? && (ItemsRankBound(t.items, 0); Shaped(t.items[0].tree))
    else if |t.items| == 1 then
      t.items[0].Raw? || (ItemsRankBound(t.items, 0); Shaped(t.items[0].tree))
    else if |t.items| == 3 then
      && t.items[1].Raw? && t.items[1].c in {AND, OR, IMPL, EQ}
      && (t.items[0].Nested? ==> (ItemsRankBound(t.items, 0); Shaped(t.items[0].tree)))
      && (t.items[2].Nested? ==> (ItemsRankBound(t.items, 2); Shaped(t.items[2].tree)))
    else false
  }

  /** `parse` succeeds exactly on the trees of the grammar. */
  lemma {:induction false} ParseAcceptsShaped(t: TypedTree)
    ensures Parse(t).Ok? <==> Shaped(t)
    decreases Rank(t)
  {
    if t.kind == [NOT] {
      if |t.items| == 1 && t.items[0].Nested? {
        ItemsRankBound(t.items, 0);
        ParseAcceptsShaped(t.items[0].tree);
      }
    } else if |t.items| == 1 {
      if t.items[0].Nested? {
        ItemsRankBound(t.items, 0);
        ParseAcceptsShaped(t.items[0].tree);
      }
    } else if |t.items| == 3 {
      ItemsRankBound(t.items, 0);
      ItemsRankBound(t.items, 2);
      if t.items[0].Nested? { ParseAcceptsShaped(t.items[0].tree); }
      if t.items[2].Nested? { ParseAcceptsShaped(t.items[2].tree); }
    }
  }

  /** A canonical typed tree for an AST: the shape the folded hierarchy has. */
  function Unparse(n: Node): TypedTree
  {
    match n
    case Literal(c) => TypedTree("tmp", [Raw(c)])
    case Unary(m) => TypedTree([NOT], [Nested(Unparse(m))])
    case Binary(op, l, r) => TypedTree("node", [Nested(Unparse(l)), Raw(Symbol(op)), Nested(Unparse(r))])
  }

  /** Every AST is the parse of some tree: `Parse` inverts `Unparse`. */
  lemma {:induction false} ParseUnparse(n: Node)
    ensures Parse(Unparse(n)) == Ok(n)
  {
    match n
    case Literal(_) =>
    case Unary(m) => ParseUnparse(m);
    case Binary(op, l, r) =>
      ParseUnparse(l);
      ParseUnparse(r);
      assert OperatorOf(Symbol(op)) == Some(op);
  }

  /** `stringify` of src/ast.ts:90-106: never empty; a negation starts
      with NOT and a binary node is wrapped in parentheses.  That the
      printed form determines the AST is `ReadStringify`. */
  function Stringify(n: Node): (s: string)
    ensures s != []
    ensures n.Unary? ==> s[0] == NOT
    ensures n.Binary? ==> s[0] == '(' && s[|s| - 1] == ')'
  {
    match n
    case Literal(c) => [c]
    case Unary(m) => [NOT] + Stringify(m)
    case Binary(op, l, r) => "(" + Stringify(l) + " " + [Symbol(op)] + " " + Stringify(r) + ")"
  }

  /** Opening minus closing parentheses in `s`. */
  function ParenDepth(s: string): int
  {
    if s == [] then 0
    else (if s[0] == '(' then 1 else if s[0] == ')' then -1 else 0) + ParenDepth(s[1..])
  }

  /** Every prefix closes no more parentheses than it opened, and the whole
      string closes all it opened. */
  ghost predicate BalancedParens(s: string)
  {
    ParenDepth(s) == 0 && forall k :: 0 <= k <= |s| ==> ParenDepth(s[..k]) >= 0
  }

  /** No literal of `n` satisfies `p`. */
  ghost predicate NoLiteral(n: Node, p: char -> bool)
  {
    match n
    case Literal(c) => !p(c)
    case Unary(m) => NoLiteral(m, p)
    case Binary(_, l, r) => NoLiteral(l, p) && NoLiteral(r, p)
  }

  lemma {:induction false} ParenDepthAppend(a: string, b: string)
    ensures ParenDepth(a + b) == ParenDepth(a) + ParenDepth(b)
  {
    if a != [] {
      assert (a + b)[0] == a[0];
      assert (a + b)[1..] == a[1..] + b;
      ParenDepthAppend(a[1..], b);
    } else {
      assert a + b == b;
    }
  }

  /** Concatenating two balanced strings gives a balanced string. */
  lemma BalancedAppend(a: string, b: string)
    requires BalancedParens(a) && BalancedParens(b)
    ensures BalancedParens(a + b)
  {
    ParenDepthAppend(a, b);
    forall k | 0 <= k <= |a + b| ensures ParenDepth((a + b)[..k]) >= 0 {
      if k <= |a| {
        assert (a + b)[..k] == a[..k];
      } else {
        assert (a + b)[..k] == a + b[..k - |a|];
        ParenDepthAppend(a, b[..k - |a|]);
      }
    }
  }

  /** A string without parentheses is balanced. */
  lemma {:induction false} BalancedPlain(s: string)
    requires forall i :: 0 <= i < |s| ==> s[i] != '(' && s[i] != ')'
    ensures ParenDepth(s) == 0 && BalancedParens(s)
  {
    if s != [] {
      BalancedPlain(s[1..]);
    }
    forall k | 0 <= k <= |s| ensures ParenDepth(s[..k]) == 0 {
      if k < |s| { BalancedPlain(s[..k]); } else { assert s[..k] == s; }
    }
  }

  /** Wrapping a balanced string in one pair of parentheses keeps it
      balanced. */
  lemma Wrapped(s: string)
    requires BalancedParens(s)
    ensures BalancedParens("(" + s + ")")
  {
    var w := "(" + s + ")";
    ParenDepthAppend("(", s);
    ParenDepthAppend("(" + s, ")");
    forall k | 0 <= k <= |w| ensures ParenDepth(w[..k]) >= 0 {
      if k == 0 {
      } else if k <= |s| + 1 {
        assert w[..k] == "(" + s[..k - 1];
        ParenDepthAppend("(", s[..k - 1]);
      } else {
        assert w[..k] == w;
      }
    }
  }

  /** The printed form has balanced parentheses when no literal is a
      parenthesis. */
  lemma {:induction false} StringifyBalanced(n: Node)
    requires NoLiteral(n, c => c == '(' || c == ')')
    ensures BalancedParens(Stringify(n))
  {
    match n
    case Literal(c) =>
      BalancedPlain([c]);
    case Unary(m) =>
      StringifyBalanced(m);
      BalancedPlain([NOT]);
      BalancedAppend([NOT], Stringify(m));
    case Binary(op, l, r) =>
      StringifyBalanced(l);
      StringifyBalanced(r);
      var mid := " " + [Symbol(op)] + " ";
      BalancedPlain(mid);
      BalancedAppend(Stringify(l), mid);
      BalancedAppend(Stringify(l) + mid, Stringify(r));
      Wrapped(Stringify(l) + mid + Stringify(r));
      assert Stringify(n) == "(" + (Stringify(l) + mid + Stringify(r)) + ")";
  }

  /** A reader for the printed form: one AST off the front of `s`, with the
      rest of `s`. */
  function Read(s: string): (r: Option<(Node, string)>)
    ensures r.Some? ==> |r.value.1| < |s|
    decreases |s|
  {
    if s == [] then None
    else if s[0] == NOT then
      match Read(s[1..])
      case None => None
      case Some((m, rest)) => Some((Unary(m), rest))
    else if s[0] == '(' then
      match Read(s[1..])
      case None => None
      case Some((l, rest)) =>
        if |rest| < 3 || rest[0] != ' ' || OperatorOf(rest[1]).None? || rest[2] != ' ' then None
        else
          match Read(rest[3..])
          case None => None
          case Some((r, rest')) =>
            if rest' == [] || rest'[0] != ')' then None
            else Some((Binary(OperatorOf(rest[1]).value, l, r), rest'[1..]))
    else Some((Literal(s[0]), s[1..]))
  }

  /** The printed form is unambiguous: reading it back gives the AST, when
      no literal is the NOT symbol or an opening parenthesis. */
  lemma {:induction false} ReadStringify(n: Node, rest: string)
    requires NoLiteral(n, c => c == NOT || c == '(')
    ensures Read(Stringify(n) + rest) == Some((n, rest))
  {
    match n
    case Literal(c) =>
      assert (Stringify(n) + rest)[1..] == rest;
    case Unary(m) =>
      assert (Stringify(n) + rest)[1..] == Stringify(m) + rest;
      ReadStringify(m, rest);
    case Binary(op, l, r) =>
      var tail := " " + [Symbol(op)] + " " + (Stringify(r) + (")" + rest));
      ReadStringify(l, tail);
      ReadStringify(r, ")" + rest);
      ReadBinary(op, l, r, rest);
  }

  /** The printed form of a binary node, taken apart the way Read reads
      it. */
  lemma BinaryShape(op: BinaryOp, l: Node, r: Node, rest: string)
    ensures var tail := " " + [Symbol(op)] + " " + (Stringify(r) + (")" + rest));
            var s := Stringify(Binary(op, l, r)) + rest;
            && s != [] && s[0] == '(' && s[1..] == Stringify(l) + tail
            && |tail| >= 3 && tail[0] == ' ' && tail[1] == Symbol(op) && tail[2] == ' '
            && tail[3..] == Stringify(r) + (")" + rest)
  {
    var tail := " " + [Symbol(op)] + " " + (Stringify(r) + (")" + rest));
    assert Stringify(Binary(op, l, r)) + rest == "(" + (Stringify(l) + tail);
  }

  /** The step of ReadStringify for a binary node, from the facts about its
      two operands. */
  lemma ReadBinary(op: BinaryOp, l: Node, r: Node, rest: string)
    requires Read(Stringify(l) + (" " + [Symbol(op)] + " " + (Stringify(r) + (")" + rest))))
             == Some((l, " " + [Symbol(op)] + " " + (Stringify(r) + (")" + rest))))
    requires Read(Stringify(r) + (")" + rest)) == Some((r, ")" + rest))
    ensures Read(Stringify(Binary(op, l, r)) + rest) == Some((Binary(op, l, r), rest))
  {
    BinaryShape(op, l, r, rest);
    var closing := ")" + rest;
    assert OperatorOf(Symbol(op)) == Some(op);
    assert closing[0] == ')' && closing[1..] == rest;
  }

  /** Hence two ASTs with the same printed form are equal. */
  lemma StringifyInjective(a: Node, b: Node)
    requires NoLiteral(a, c => c == NOT || c == '(') && NoLiteral(b, c => c == NOT || c == '(')
    requires Stringify(a) == Stringify(b)
    ensures a == b
  {
    ReadStringify(a, []);
    ReadStringify(b, []);
    assert Stringify(a) + [] == Stringify(b) + [];
  }

  /** The tree of the hierarchy snapshot in src/lib/hierarchy.test.ts:12
      parses to the AST of `(~(p ∨ ~q) → (~p ∨ q))`. */
  lemma SnapshotParses()
    ensures Parse(TypedTree("root", [
                    Nested(TypedTree([NOT], [Nested(TypedTree("node", [
                      Raw('p'), Raw(OR), Nested(TypedTree([NOT], [Nested(TypedTree("node", [Raw('q')]))]))]))])),
                    Raw(IMPL),
                    Nested(TypedTree("node", [
                      Nested(TypedTree([NOT], [Nested(TypedTree("node", [Raw('p')]))])), Raw(OR), Raw('q')]))]))
            == Ok(Binary(Impl, Unary(Binary(Or, Literal('p'), Unary(Literal('q')))),
                         Binary(Or, Unary(Literal('p')), Literal('q'))))
  {
    var notQ := TypedTree([NOT], [Nested(TypedTree("node", [Raw('q')]))]);
    var notP := TypedTree([NOT], [Nested(TypedTree("node", [Raw('p')]))]);
    var inner := TypedTree("node", [Raw('p'), Raw(OR), Nested(notQ)]);
    var right := TypedTree("node", [Nested(notP), Raw(OR), Raw('q')]);
    assert Parse(notQ) == Ok(Unary(Literal('q')));
    assert Parse(notP) == Ok(Unary(Literal('p')));
    assert Parse(ToTree(Raw('p'))) == Ok(Literal('p'));
    assert Parse(ToTree(Raw('q'))) == Ok(Literal('q'));
    assert Parse(inner) == Ok(Binary(Or, Literal('p'), Unary(Literal('q'))));
    assert Parse(right) == Ok(Binary(Or, Unary(Literal('p')), Literal('q')));
  }

  /** That AST prints as the snapshot of test/ast.test.ts:20. */
  lemma SnapshotPrints()
    ensures Stringify(Binary(Impl, Unary(Binary(Or, Literal('p'), Unary(Literal('q')))),
                             Binary(Or, Unary(Literal('p')), Literal('q'))))
            == "(~(p " + [OR] + " ~q) " + [IMPL] + " (~p " + [OR] + " q))"
  {
  }
}
