/**
 * The helpers of src/lib/utils/ast-utils.ts: the three node-kind
 * predicates, the stack-based depth-first and the queue-based breadth-first
 * walks, and the printer.
 *
 * The walks report each node with its parent through a callback; here the
 * callback's calls are the sequence of visits the method returns.  Their
 * `visited` set holds node objects.  An AST built by the parser shares no
 * subtree, so a node object is identified by its position in the tree (the
 * child indices on the path from the root); the walks keep a set of
 * positions, and the proofs show that its membership test never succeeds.
 */
module AstUtils {
  import opened Chars
  import opened Wrappers
  import opened Ast

  /** The `__type` tag of a node: "literal", or the operator symbol. */
  function TypeOf(n: Node): string
  {
    match n
    case Literal(_) => "literal"
    case Unary(_) => [NOT]
    case Binary(op, _, _) => [Symbol(op)]
  }

  /** `isBinary` (src/lib/utils/ast-utils.ts:6-8): the tag is one of the
      four binary symbols, which happens exactly for binary nodes. */
  predicate IsBinary(n: Node)
    ensures IsBinary(n) <==> n.Binary?
  {
    TypeOf(n) == [IMPL] || TypeOf(n) == [OR] || TypeOf(n) == [AND] || TypeOf(n) == [EQ]
  }

  /** `isUnary` (src/lib/utils/ast-utils.ts:10-12): the tag is NOT, which
      happens exactly for negations. */
  predicate IsUnary(n: Node)
    ensures IsUnary(n) <==> n.Unary?
  {
    TypeOf(n) == [NOT]
  }

  /** `isLiteral` (src/lib/utils/ast-utils.ts:14-16): the tag is "literal",
      which happens exactly for literals; so exactly one of the three
      predicates holds of every node. */
  predicate IsLiteral(n: Node)
    ensures IsLiteral(n) <==> n.Literal?
  {
    TypeOf(n) == "literal"
  }

  /** `stringify` of src/lib/utils/ast-utils.ts:62-76: it dispatches on the
      kind predicates rather than on the variant, and prints exactly as the
      printer of src/ast.ts. */
  function Stringify(n: Node): (s: string)
    ensures s == Ast.Stringify(n)
  {
    if IsUnary(n) then [NOT] + Stringify(n.node)
    else if IsBinary(n) then "(" + Stringify(n.left) + " " + TypeOf(n) + " " + Stringify(n.right) + ")"
    else [n.constant]
  }

  /** One call of the callback: the node and its parent (None for the
      root, `undefined` in the source). */
  datatype Visit = Visit(node: Node, parent: Option<Node>)

  /** Whether `c` is a child of `p`. */
  predicate IsChildOf(c: Node, p: Node)
  {
    (p.Unary? && p.node == c) || (p.Binary? && (p.left == c || p.right == c))
  }

  /** The visits of the children of `v`'s node, left before right. */
  function ChildVisits(v: Visit): seq<Visit>
  {
    match v.node
    case Literal(_) => []
    case Unary(m) => [Visit(m, Some(v.node))]
    case Binary(_, l, r) => [Visit(l, Some(v.node)), Visit(r, Some(v.node))]
  }

  /** Pre-order with the right subtree before the left: the order in which
      a LIFO stack that receives the left child first pops the nodes. */
  function DfsOrder(v: Visit): seq<Visit>
    decreases v.node
  {
    [v] + match v.node
          case Literal(_) => []
          case Unary(m) => DfsOrder(Visit(m, Some(v.node)))
          case Binary(_, l, r) => DfsOrder(Visit(r, Some(v.node))) + DfsOrder(Visit(l, Some(v.node)))
  }

  function Size(n: Node): nat
  {
    match n
    case Literal(_) => 1
    case Unary(m) => 1 + Size(m)
    case Binary(_, l, r) => 1 + Size(l) + Size(r)
  }

  /** Total size of the trees below a list of visits. */
  function Weight(vs: seq<Visit>): nat
  {
    if vs == [] then 0 else Size(vs[0].node) + Weight(vs[1..])
  }

  /** The children of a list of visits, in list order. */
  function Kids(vs: seq<Visit>): seq<Visit>
  {
    if vs == [] then [] else ChildVisits(vs[0]) + Kids(vs[1..])
  }

  lemma {:induction false} WeightAppend(a: seq<Visit>, b: seq<Visit>)
    ensures Weight(a + b) == Weight(a) + Weight(b)
  {
    if a != [] {
      assert (a + b)[0] == a[0];
      assert (a + b)[1..] == a[1..] + b;
      WeightAppend(a[1..], b);
    } else {
      assert a + b == b;
    }
  }

  lemma {:induction false} KidsWeight(vs: seq<Visit>)
    ensures Weight(Kids(vs)) + |vs| == Weight(vs)
  {
    if vs != [] {
      KidsWeight(vs[1..]);
      WeightAppend(ChildVisits(vs[0]), Kids(vs[1..]));
      match vs[0].node
      case Literal(_) =>
      case Unary(m) =>
        assert Weight([Visit(m, Some(vs[0].node))]) == Size(m) + Weight([]);
      case Binary(_, l, r) =>
        var cs := ChildVisits(vs[0]);
        assert Weight(cs) == Size(l) + Weight(cs[1..]);
        assert Weight(cs[1..]) == Size(r) + Weight([]);
    }
  }

  /** Level order, left before right within a level: the visits of the
      forest `vs`, then those of all their children, and so on. */
  function LevelOrder(vs: seq<Visit>): seq<Visit>
    decreases Weight(vs)
  {
    if vs == [] then []
    else
      KidsWeight(vs);
      vs + LevelOrder(Kids(vs))
  }

  /** A pending entry of a walk: the node, its parent and its position. */
  datatype Entry = Entry(node: Node, parent: Option<Node>, pos: seq<nat>)

  function ToVisit(e: Entry): Visit
  {
    Visit(e.node, e.parent)
  }

  function ToVisits(es: seq<Entry>): (vs: seq<Visit>)
    ensures |vs| == |es| && forall i :: 0 <= i < |es| ==> vs[i] == ToVisit(es[i])
  {
    seq(|es|, i requires 0 <= i < |es| => ToVisit(es[i]))
  }

  /** The entries for the children of `e`, in the order the walks add them
      (left first). */
  function ChildEntries(e: Entry): (cs: seq<Entry>)
    ensures ToVisits(cs) == ChildVisits(ToVisit(e))
    ensures forall i :: 0 <= i < |cs| ==> cs[i].pos == e.pos + [i]
  {
    match e.node
    case Literal(_) => []
    case Unary(m) => [Entry(m, Some(e.node), e.pos + [0])]
    case Binary(_, l, r) => [Entry(l, Some(e.node), e.pos + [0]), Entry(r, Some(e.node), e.pos + [1])]
  }

  predicate IsPrefix(p: seq<nat>, q: seq<nat>)
  {
    |p| <= |q| && q[..|p|] == p
  }

  /** No visited position lies at or below a pending entry, and no pending
      entry lies at or below another: the `visited` test cannot succeed on
      any pending entry. */
  ghost predicate Unseen(pending: seq<Entry>, visited: set<seq<nat>>)
  {
    && (forall i, v :: 0 <= i < |pending| && v in visited ==> !IsPrefix(pending[i].pos, v))
    && (forall i, j :: 0 <= i < |pending| && 0 <= j < |pending| && i != j ==>
          !IsPrefix(pending[i].pos, pending[j].pos))
  }

  lemma PrefixFacts(p: seq<nat>, q: seq<nat>, k: nat)
    ensures IsPrefix(p, p + [k])
    ensures IsPrefix(p + [k], q) ==> IsPrefix(p, q)
    ensures IsPrefix(q, p + [k]) ==> q == p + [k] || IsPrefix(q, p)
  {
    assert (p + [k])[..|p|] == p;
    if IsPrefix(p + [k], q) {
      assert q[..|p|] == q[..|p| + 1][..|p|];
    }
    if IsPrefix(q, p + [k]) && |q| <= |p| {
      assert p[..|q|] == (p + [k])[..|q|];
    }
  }

  /** Taking entry `e` out of the pending entries, marking its position
      visited and adding its children keeps every pending entry unseen. */
  lemma UnseenStep(rest: seq<Entry>, e: Entry, visited: set<seq<nat>>, added: seq<Entry>, pending: seq<Entry>)
    requires Unseen(rest + [e], visited)
    requires forall i :: 0 <= i < |added| ==> added[i].pos == e.pos + [i]
    requires multiset(pending) == multiset(rest + added)
    ensures Unseen(pending, visited + {e.pos})
  {
    var before := rest + [e];
    var all := rest + added;
    assert e == before[|rest|];
    forall i, v | 0 <= i < |all| && v in visited + {e.pos}
      ensures !IsPrefix(all[i].pos, v)
    {
      if i < |rest| {
        assert rest[i] == before[i];
      } else {
        PrefixFacts(e.pos, v, i - |rest|);
      }
    }
    forall i, j | 0 <= i < |all| && 0 <= j < |all| && i != j
      ensures !IsPrefix(all[i].pos, all[j].pos)
    {
      if i < |rest| && j < |rest| {
        assert rest[i] == before[i] && rest[j] == before[j];
      } else if i < |rest| {
        assert rest[i] == before[i];
        PrefixFacts(e.pos, rest[i].pos, j - |rest|);
      } else if j < |rest| {
        assert rest[j] == before[j];
        PrefixFacts(e.pos, rest[j].pos, i - |rest|);
      } else {
        var a, b := added[i - |rest|], added[j - |rest|];
        assert a.pos[|e.pos|] != b.pos[|e.pos|];
      }
    }
    UnseenPermuted(all, pending, visited + {e.pos});
  }

  /** Unseen depends only on which entries are pending, not on their order. */
  lemma UnseenPermuted(a: seq<Entry>, b: seq<Entry>, visited: set<seq<nat>>)
    requires Unseen(a, visited) && multiset(a) == multiset(b)
    ensures Unseen(b, visited)
  {
    forall i | 0 <= i < |b| ensures b[i] in multiset(a) {
      assert b[i] in multiset(b);
    }
    forall i, j | 0 <= i < |b| && 0 <= j < |b| && i != j
      ensures !IsPrefix(b[i].pos, b[j].pos)
    {
      assert b[i] in multiset(a);
      var i' :| 0 <= i' < |a| && a[i'] == b[i];
      assert b[j] in multiset(a);
      var j' :| 0 <= j' < |a| && a[j'] == b[j];
      UniqueEntries(a, visited, i');
      TwiceCounted(b, i, j);
      assert b[i] != b[j];
    }
  }

  /** In an unseen list every entry occurs once. */
  lemma {:induction false} UniqueEntries(a: seq<Entry>, visited: set<seq<nat>>, i: nat)
    requires Unseen(a, visited) && i < |a|
    ensures multiset(a)[a[i]] == 1
  {
    if |a| == 1 {
    } else {
      var j := if i == |a| - 1 then 0 else |a| - 1;
      var last := a[|a| - 1];
      var init := a[..|a| - 1];
      assert a == init + [last];
      assert Unseen(init, visited);
      if i == |a| - 1 {
        forall k | 0 <= k < |init| ensures init[k] != last {
          assert init[k] == a[k];
          assert !IsPrefix(a[k].pos, a[|a| - 1].pos);
        }
        assert last !in multiset(init);
      } else {
        UniqueEntries(init, visited, i);
        assert init[i] == a[i];
        assert !IsPrefix(a[i].pos, a[|a| - 1].pos);
      }
    }
  }

  lemma TwiceCounted(b: seq<Entry>, i: nat, j: nat)
    requires i < |b| && j < |b| && i != j
    ensures b[i] == b[j] ==> multiset(b)[b[i]] >= 2
  {
    if b[i] == b[j] {
      var lo, hi := if i < j then i else j, if i < j then j else i;
      var x, after := b[lo], b[lo + 1..];
      assert after[hi - lo - 1] == x;
      assert b == b[..lo] + [x] + after;
      assert multiset(b) == multiset(b[..lo]) + multiset{x} + multiset(after);
    }
  }

  /** The visits a stack will still produce: the top entry's subtree first,
      then the rest of the stack. */
  function StackOrder(stack: seq<Entry>): seq<Visit>
  {
    if stack == [] then []
    else DfsOrder(ToVisit(stack[|stack| - 1])) + StackOrder(stack[..|stack| - 1])
  }

  /** The entry on top of a stack is visited first, its subtree whole. */
  lemma StackSnoc(rest: seq<Entry>, e: Entry)
    ensures StackOrder(rest + [e]) == DfsOrder(ToVisit(e)) + StackOrder(rest)
  {
    assert (rest + [e])[..|rest|] == rest;
  }

  /** Stacking `b` on top of `a`: all of `b` is visited before any of `a`. */
  lemma {:induction false} StackConcat(a: seq<Entry>, b: seq<Entry>)
    ensures StackOrder(a + b) == StackOrder(b) + StackOrder(a)
    decreases |b|
  {
    if b == [] {
      assert a + b == a;
    } else {
      var init, e := b[..|b| - 1], b[|b| - 1];
      assert b == init + [e];
      assert a + b == (a + init) + [e];
      StackSnoc(a + init, e);
      StackSnoc(init, e);
      StackConcat(a, init);
      var d, si, sa := DfsOrder(ToVisit(e)), StackOrder(init), StackOrder(a);
      assert d + (si + sa) == (d + si) + sa;
    }
  }

  /** The children of `e`, pushed left first, produce the rest of `e`'s
      pre-order. */
  lemma StackChildren(e: Entry)
    ensures DfsOrder(ToVisit(e)) == [ToVisit(e)] + StackOrder(ChildEntries(e))
  {
    var cs := ChildEntries(e);
    match e.node
    case Literal(_) =>
    case Unary(m) =>
      assert cs == [] + [cs[0]];
      StackSnoc([], cs[0]);
    case Binary(_, l, r) =>
      var a, b := cs[0], cs[1];
      assert cs == [a] + [b] && [a] == [] + [a];
      StackSnoc([], a);
      StackSnoc([a], b);
  }

  /** Popping `e` and pushing its children in the order of the source (left
      first) leaves the rest of `e`'s pre-order on the stack. */
  lemma StackStep(rest: seq<Entry>, e: Entry)
    ensures StackOrder(rest + [e]) == DfsOrder(ToVisit(e)) + StackOrder(rest)
    ensures DfsOrder(ToVisit(e)) == [ToVisit(e)] + StackOrder(ChildEntries(e))
    ensures StackOrder(rest + ChildEntries(e)) == StackOrder(ChildEntries(e)) + StackOrder(rest)
  {
    StackSnoc(rest, e);
    StackChildren(e);
    StackConcat(rest, ChildEntries(e));
  }

  /** One iteration of the depth-first loop keeps the visits made plus the
      visits the stack will still produce equal to the whole pre-order, and
      shortens what the stack will still produce. */
  lemma DfsStep(visits: seq<Visit>, rest: seq<Entry>, e: Entry, target: seq<Visit>)
    requires visits + StackOrder(rest + [e]) == target
    ensures visits + [ToVisit(e)] + StackOrder(rest + ChildEntries(e)) == target
    ensures |StackOrder(rest + ChildEntries(e))| < |StackOrder(rest + [e])|
  {
    StackStep(rest, e);
    Regroup(visits, [ToVisit(e)], StackOrder(ChildEntries(e)), StackOrder(rest));
  }

  lemma Regroup(a: seq<Visit>, b: seq<Visit>, c: seq<Visit>, d: seq<Visit>)
    ensures a + b + (c + d) == a + (b + c) + d
  {
  }

  /** In an unseen list no pending position has been visited. */
  lemma UnseenNotVisited(pending: seq<Entry>, visited: set<seq<nat>>, i: nat)
    requires Unseen(pending, visited) && i < |pending|
    ensures pending[i].pos !in visited
  {
    assert IsPrefix(pending[i].pos, pending[i].pos);
  }

  /** Pushes the children of an entry in the order the traversals push them:
      the operand of a negation, or the left and then the right operand of a
      binary connective. */
  method PushChildren(stack: seq<Entry>, e: Entry) returns (r: seq<Entry>)
    ensures r == stack + ChildEntries(e)
  {
    r := stack;
    if IsUnary(e.node) {
      r := r + [Entry(e.node.node, Some(e.node), e.pos + [0])];
    } else if IsBinary(e.node) {
      r := r + [Entry(e.node.left, Some(e.node), e.pos + [0])];
      r := r + [Entry(e.node.right, Some(e.node), e.pos + [1])];
    }
  }

  /** `dfs` (src/lib/utils/ast-utils.ts:18-38): the callback's calls are
      exactly the pre-order of the tree with right before left, the root
      first and with no parent. */
  method Dfs(root: Node) returns (visits: seq<Visit>)
    ensures visits == DfsOrder(Visit(root, None))
  {
    var stack := [Entry(root, None, [])];
    var visited: set<seq<nat>> := {};
    visits := [];
    while |stack| > 0
      invariant visits + StackOrder(stack) == DfsOrder(Visit(root, None))
      invariant Unseen(stack, visited)
      decreases |StackOrder(stack)|
    {
      ghost var before := stack;
      var current := stack[|stack| - 1];
      stack := stack[..|stack| - 1];
      assert before == stack + [current];
      UnseenNotVisited(before, visited, |stack|);
      if current.pos !in visited {
        DfsStep(visits, stack, current, DfsOrder(Visit(root, None)));
        UnseenStep(stack, current, visited, ChildEntries(current), stack + ChildEntries(current));
        visited := visited + {current.pos};
        stack := PushChildren(stack, current);
        visits := visits + [Visit(current.node, current.parent)];
      }
    }
  }

  lemma ToVisitsAppend(a: seq<Entry>, b: seq<Entry>)
    ensures ToVisits(a + b) == ToVisits(a) + ToVisits(b)
  {
  }

  /** The visits a queue will still produce: the entries before `cut` are the
      rest of the level being dequeued, the ones from `cut` on are children
      of entries already dequeued. */
  function QueueOrder(queue: seq<Entry>, cut: nat): seq<Visit>
    requires cut <= |queue|
  {
    ToVisits(queue[..cut]) + LevelOrder(ToVisits(queue[cut..]) + Kids(ToVisits(queue[..cut])))
  }

  /** A queue whose current level is exhausted starts its next level. */
  lemma QueueReset(queue: seq<Entry>)
    ensures QueueOrder(queue, 0) == LevelOrder(ToVisits(queue))
    ensures QueueOrder(queue, |queue|) == LevelOrder(ToVisits(queue))
  {
    var vs := ToVisits(queue);
    assert queue[..0] == [] && queue[0..] == queue;
    assert queue[..|queue|] == queue && queue[|queue|..] == [];
    assert ToVisits([]) == [] && Kids([]) == [];
    assert vs + [] == vs;
    assert [] + LevelOrder(vs) == LevelOrder(vs);
    if vs == [] {
      assert [] + Kids(vs) == [];
    } else {
      assert [] + Kids(vs) == Kids(vs);
    }
  }

  /** The children of the first visit come first among the children. */
  lemma KidsCons(v: Visit, vs: seq<Visit>)
    ensures Kids([v] + vs) == ChildVisits(v) + Kids(vs)
  {
    assert ([v] + vs)[1..] == vs;
  }

  /** The two halves of the queue after one step, against those before:
      the head leaves the current level, and its children join the end of
      the next one. */
  lemma BfsHalves(queue: seq<Entry>, cut: nat)
    requires 0 < cut <= |queue|
    ensures var q := queue[1..] + ChildEntries(queue[0]);
            && ToVisits(queue[..cut]) == [ToVisit(queue[0])] + ToVisits(q[..cut - 1])
            && ToVisits(queue[cut..]) + Kids(ToVisits(queue[..cut]))
               == ToVisits(q[cut - 1..]) + Kids(ToVisits(q[..cut - 1]))
  {
    var e := queue[0];
    var v := ToVisit(e);
    var cs := ChildEntries(e);
    var q := queue[1..] + cs;
    assert q[..cut - 1] == queue[1..cut];
    assert q[cut - 1..] == queue[cut..] + cs;
    var r' := ToVisits(queue[1..cut]);
    var k := ToVisits(queue[cut..]);
    var c := ChildVisits(v);
    assert ToVisits(queue[..cut]) == [v] + r';
    ToVisitsAppend(queue[cut..], cs);
    KidsCons(v, r');
    assert k + (c + Kids(r')) == (k + c) + Kids(r');
  }

  /** Dequeuing the head of the current level and enqueuing its children
      (left first) produces the head's visit followed by what the new queue
      will produce. */
  lemma BfsStep(queue: seq<Entry>, cut: nat)
    requires 0 < cut <= |queue|
    ensures QueueOrder(queue, cut)
         == [ToVisit(queue[0])] + QueueOrder(queue[1..] + ChildEntries(queue[0]), cut - 1)
  {
    var q := queue[1..] + ChildEntries(queue[0]);
    BfsHalves(queue, cut);
    var head, level := ToVisits(q[..cut - 1]), LevelOrder(ToVisits(queue[cut..]) + Kids(ToVisits(queue[..cut])));
    assert QueueOrder(queue, cut) == [ToVisit(queue[0])] + head + level;
    assert QueueOrder(q, cut - 1) == head + level;
  }

  /** The same step takes exactly one node off the weight of the queue. */
  lemma BfsWeight(queue: seq<Entry>)
    requires queue != []
    ensures Weight(ToVisits(queue[1..] + ChildEntries(queue[0]))) + 1 == Weight(ToVisits(queue))
  {
    var e, rest := queue[0], queue[1..];
    var v := ToVisit(e);
    var cs := ChildEntries(e);
    ToVisitsAppend(rest, cs);
    assert queue == [e] + rest;
    ToVisitsAppend([e], rest);
    assert ToVisits([e]) == [v];
    WeightAppend([v], ToVisits(rest));
    assert Weight(ToVisits(queue)) == Weight([v]) + Weight(ToVisits(rest));
    WeightAppend(ToVisits(rest), ToVisits(cs));
    KidsWeight([v]);
    assert [v][1..] == [];
    assert Kids([v]) == ChildVisits(v) + Kids([]);
    assert ChildVisits(v) + [] == ChildVisits(v);
    assert Weight([v]) == Size(e.node) + Weight([]);
    assert ToVisits(cs) == ChildVisits(v);
    assert Weight(ChildVisits(v)) + 1 == Weight([v]);
  }

  /** The loop step of `bfs` on the visits produced so far. */
  lemma BfsLoopStep(visits: seq<Visit>, queue: seq<Entry>, cut: nat, target: seq<Visit>)
    requires 0 < cut <= |queue|
    requires visits + QueueOrder(queue, cut) == target
    ensures visits + [ToVisit(queue[0])] + QueueOrder(queue[1..] + ChildEntries(queue[0]), cut - 1) == target
  {
    BfsStep(queue, cut);
  }

  /** Dequeuing the head, which the visited test lets through, and
      enqueuing its children keeps the queue unseen. */
  lemma BfsUnseen(queue: seq<Entry>, visited: set<seq<nat>>)
    requires queue != [] && Unseen(queue, visited)
    ensures queue[0].pos !in visited
    ensures Unseen(queue[1..] + ChildEntries(queue[0]), visited + {queue[0].pos})
  {
    var e, rest := queue[0], queue[1..];
    UnseenNotVisited(queue, visited, 0);
    assert queue == [e] + rest;
    assert multiset(queue) == multiset(rest + [e]);
    UnseenPermuted(queue, rest + [e], visited);
    UnseenStep(rest, e, visited, ChildEntries(e), rest + ChildEntries(e));
  }

  /** `bfs` (src/lib/utils/ast-utils.ts:40-60): the callback's calls are
      exactly the level order of the tree, left before right within a level,
      starting with the root and no parent. */
  method Bfs(root: Node) returns (visits: seq<Visit>)
    ensures visits == LevelOrder([Visit(root, None)])
  {
    var queue := [Entry(root, None, [])];
    var visited: set<seq<nat>> := {};
    ghost var cut: nat := 0;
    visits := [];
    QueueReset(queue);
    assert ToVisits(queue) == [Visit(root, None)];
    while |queue| > 0
      invariant cut <= |queue|
      invariant visits + QueueOrder(queue, cut) == LevelOrder([Visit(root, None)])
      invariant Unseen(queue, visited)
      decreases Weight(ToVisits(queue))
    {
      if cut == 0 {
        QueueReset(queue);
        cut := |queue|;
      }
      BfsLoopStep(visits, queue, cut, LevelOrder([Visit(root, None)]));
      BfsWeight(queue);
      BfsUnseen(queue, visited);
      var current := queue[0];
      queue := queue[1..];
      if current.pos !in visited {
        visited := visited + {current.pos};
        queue := PushChildren(queue, current);
        cut := cut - 1;
        visits := visits + [Visit(current.node, current.parent)];
      }
    }
    QueueReset(queue);
  }

  /** The literal constants occurring in a tree. */
  function Constants(n: Node): set<char>
  {
    match n
    case Literal(c) => {c}
    case Unary(m) => Constants(m)
    case Binary(_, l, r) => Constants(l) + Constants(r)
  }

  /** The constants a callback that records literal nodes collects from a
      sequence of visits. */
  function LiteralSet(vs: seq<Visit>): set<char>
  {
    set i | 0 <= i < |vs| && vs[i].node.Literal? :: vs[i].node.constant
  }

  /** A visit reports a node together with one of its actual parents. */
  predicate HasParent(w: Visit)
  {
    w.parent.Some? && IsChildOf(w.node, w.parent.value)
  }

  lemma LiteralSetAppend(a: seq<Visit>, b: seq<Visit>)
    ensures LiteralSet(a + b) == LiteralSet(a) + LiteralSet(b)
  {
    forall c | c in LiteralSet(a + b) ensures c in LiteralSet(a) + LiteralSet(b) {
      var i :| 0 <= i < |a + b| && (a + b)[i].node.Literal? && (a + b)[i].node.constant == c;
      if i >= |a| {
        assert b[i - |a|] == (a + b)[i];
      }
    }
    forall c | c in LiteralSet(a) ensures c in LiteralSet(a + b) {
      var i :| 0 <= i < |a| && a[i].node.Literal? && a[i].node.constant == c;
      assert (a + b)[i] == a[i];
    }
    forall c | c in LiteralSet(b) ensures c in LiteralSet(a + b) {
      var i :| 0 <= i < |b| && b[i].node.Literal? && b[i].node.constant == c;
      assert (a + b)[|a| + i] == b[i];
    }
  }

  lemma LiteralSetSingle(v: Visit)
    ensures LiteralSet([v]) == if v.node.Literal? then {v.node.constant} else {}
  {
    if v.node.Literal? {
      assert [v][0] == v;
      assert v.node.constant in LiteralSet([v]);
    }
  }

  /** Reordering the visits does not change the constants collected. */
  lemma LiteralSetPermuted(a: seq<Visit>, b: seq<Visit>)
    requires multiset(a) == multiset(b)
    ensures LiteralSet(a) == LiteralSet(b)
  {
    forall c | c in LiteralSet(a) ensures c in LiteralSet(b) {
      var i :| 0 <= i < |a| && a[i].node.Literal? && a[i].node.constant == c;
      assert a[i] in multiset(b);
      var j :| 0 <= j < |b| && b[j] == a[i];
    }
    forall c | c in LiteralSet(b) ensures c in LiteralSet(a) {
      var j :| 0 <= j < |b| && b[j].node.Literal? && b[j].node.constant == c;
      assert b[j] in multiset(a);
      var i :| 0 <= i < |a| && a[i] == b[j];
    }
  }

  /** The depth-first order reports every node of the tree once: as many
      visits as nodes. */
  lemma {:induction false} DfsSize(v: Visit)
    ensures |DfsOrder(v)| == Size(v.node)
    decreases v.node
  {
    match v.node
    case Literal(_) =>
    case Unary(m) => DfsSize(Visit(m, Some(v.node)));
    case Binary(_, l, r) =>
      DfsSize(Visit(l, Some(v.node)));
      DfsSize(Visit(r, Some(v.node)));
  }

  /** The depth-first order starts with the visit it was started from, and
      every other visit reports its node with its actual parent. */
  lemma {:induction false} DfsParents(v: Visit)
    ensures DfsOrder(v)[0] == v
    ensures forall w :: w in DfsOrder(v) ==> w == v || HasParent(w)
    decreases v.node
  {
    match v.node
    case Literal(_) =>
    case Unary(m) =>
      var c := Visit(m, Some(v.node));
      DfsParents(c);
      assert HasParent(c);
    case Binary(_, l, r) =>
      var cl, cr := Visit(l, Some(v.node)), Visit(r, Some(v.node));
      DfsParents(cl);
      DfsParents(cr);
      assert HasParent(cl) && HasParent(cr);
  }

  /** The depth-first order collects exactly the constants of the tree. */
  lemma {:induction false} DfsLiterals(v: Visit)
    ensures LiteralSet(DfsOrder(v)) == Constants(v.node)
    decreases v.node
  {
    LiteralSetSingle(v);
    match v.node
    case Literal(_) =>
      assert DfsOrder(v) == [v];
    case Unary(m) =>
      var c := Visit(m, Some(v.node));
      DfsLiterals(c);
      LiteralSetAppend([v], DfsOrder(c));
    case Binary(_, l, r) =>
      var cl, cr := Visit(l, Some(v.node)), Visit(r, Some(v.node));
      DfsLiterals(cl);
      DfsLiterals(cr);
      LiteralSetAppend(DfsOrder(cr), DfsOrder(cl));
      LiteralSetAppend([v], DfsOrder(cr) + DfsOrder(cl));
  }

  /** All visits of the depth-first orders of a forest, as a bag. */
  function ForestBag(vs: seq<Visit>): multiset<Visit>
  {
    if vs == [] then multiset{} else multiset(DfsOrder(vs[0])) + ForestBag(vs[1..])
  }

  lemma {:induction false} ForestBagAppend(a: seq<Visit>, b: seq<Visit>)
    ensures ForestBag(a + b) == ForestBag(a) + ForestBag(b)
  {
    if a == [] {
      assert a + b == b;
    } else {
      assert (a + b)[0] == a[0];
      assert (a + b)[1..] == a[1..] + b;
      ForestBagAppend(a[1..], b);
    }
  }

  /** A tree's visits are its root's and those of its children's trees. */
  lemma DfsBag(v: Visit)
    ensures multiset(DfsOrder(v)) == multiset{v} + ForestBag(ChildVisits(v))
  {
    var cs := ChildVisits(v);
    match v.node
    case Literal(_) =>
      assert DfsOrder(v) == [v];
    case Unary(m) =>
      var c := Visit(m, Some(v.node));
      assert cs[1..] == [];
      assert ForestBag(cs) == multiset(DfsOrder(c)) + ForestBag([]);
      assert DfsOrder(v) == [v] + DfsOrder(c);
    case Binary(_, l, r) =>
      var cl, cr := Visit(l, Some(v.node)), Visit(r, Some(v.node));
      assert cs[1..] == [cr] && [cr][1..] == [];
      assert ForestBag([cr]) == multiset(DfsOrder(cr)) + ForestBag([]);
      assert ForestBag(cs) == multiset(DfsOrder(cl)) + ForestBag([cr]);
      assert DfsOrder(v) == [v] + (DfsOrder(cr) + DfsOrder(cl));
  }

  /** The bag of a forest is the forest itself and the bag of its
      children. */
  lemma {:induction false} ForestBagKids(vs: seq<Visit>)
    ensures ForestBag(vs) == multiset(vs) + ForestBag(Kids(vs))
  {
    if vs != [] {
      var v, rest := vs[0], vs[1..];
      assert vs == [v] + rest;
      DfsBag(v);
      ForestBagKids(rest);
      ForestBagAppend(ChildVisits(v), Kids(rest));
    }
  }

  /** Level order produces exactly the visits of the depth-first orders of
      the forest. */
  lemma {:induction false} LevelBag(vs: seq<Visit>)
    ensures multiset(LevelOrder(vs)) == ForestBag(vs)
    decreases Weight(vs)
  {
    if vs != [] {
      KidsWeight(vs);
      LevelBag(Kids(vs));
      ForestBagKids(vs);
    }
  }

  /** `bfs` and `dfs` make the same callback calls, in different orders. */
  lemma BfsSameVisits(v: Visit)
    ensures multiset(LevelOrder([v])) == multiset(DfsOrder(v))
  {
    LevelBag([v]);
    assert [v][1..] == [];
  }

  /** `bfs` reports every node once, starts with the root, and reports every
      other node with its actual parent. */
  lemma BfsParents(v: Visit)
    ensures |LevelOrder([v])| == Size(v.node)
    ensures LevelOrder([v])[0] == v
    ensures forall w :: w in LevelOrder([v]) ==> w == v || HasParent(w)
  {
    BfsSameVisits(v);
    DfsSize(v);
    DfsParents(v);
    assert |LevelOrder([v])| == |multiset(LevelOrder([v]))|;
    forall w | w in LevelOrder([v]) ensures w == v || HasParent(w) {
      assert w in multiset(LevelOrder([v]));
    }
  }

  /** `bfs` collects exactly the constants of the tree, as `dfs` does. */
  lemma BfsLiterals(v: Visit)
    ensures LiteralSet(LevelOrder([v])) == LiteralSet(DfsOrder(v)) == Constants(v.node)
  {
    BfsSameVisits(v);
    LiteralSetPermuted(LevelOrder([v]), DfsOrder(v));
    DfsLiterals(v);
  }
}
