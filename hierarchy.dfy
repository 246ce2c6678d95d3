/**
 * src/hierarchy.ts: the tree of bracket levels as the source builds it,
 * with one heap object per level whose list of items grows in place.
 *
 * `BuildHierarchy` reads the characters once with a stack of open levels.
 * Its proof keeps, next to the heap, the arena of `HierarchyArena` (one
 * entry per level created, in creation order) and the zipper state of
 * `HierarchySpec`, and concludes that the value of the root object is
 * `HierarchySpec.Hierarchy(chars)`.
 */
module Hierarchy {
  import opened Chars
  import opened HierarchySpec
  import opened HierarchyArena

  /** An item of a level: a character, or a nested level. */
  datatype Entry = Leaf(ch: char) | Branch(node: HierarchicalTree)

  /** `HierarchicalTree` (src/hierarchy.ts:1-15), over characters. */
  class HierarchicalTree {
    var items: seq<Entry>

    constructor (items: seq<Entry>)
      ensures this.items == items
    {
      this.items := items;
    }

    /** The `length` getter. */
    function Length(): (n: nat)
      reads this
      ensures n == |items|
    {
      |items|
    }

    /** `push`: appends one item and leaves everything else as it was. */
    method Push(item: Entry)
      modifies this
      ensures items == old(items) + [item]
      ensures Length() == old(Length()) + 1
    {
      items := items + [item];
    }
  }

  /** The entries of one arena entry, each reference replaced by the object
      of that number. */
  function Decode(cells: seq<Cell>, nodes: seq<HierarchicalTree>): (r: seq<Entry>)
    requires forall k :: 0 <= k < |cells| && cells[k].Ref? ==> cells[k].index < |nodes|
    ensures |r| == |cells|
    ensures forall k :: 0 <= k < |cells| ==>
              if cells[k].Ch? then r[k] == Leaf(cells[k].c) else r[k] == Branch(nodes[cells[k].index])
  {
    seq(|cells|, k requires 0 <= k < |cells| =>
      match cells[k]
      case Ch(c) => Leaf(c)
      case Ref(j) => Branch(nodes[j]))
  }

  /** Object `i` holds exactly the items arena entry `i` describes. */
  ghost predicate Mirrors(nodes: seq<HierarchicalTree>, arena: Arena)
    reads set n | n in nodes
  {
    && |nodes| == |arena|
    && Forward(arena)
    && forall i :: 0 <= i < |nodes| ==> nodes[i].items == Decode(arena[i], nodes)
  }

  ghost predicate Unique(nodes: seq<HierarchicalTree>)
  {
    forall i, j :: 0 <= i < j < |nodes| ==> nodes[i] != nodes[j]
  }

  /** `buildHierarchy` (src/hierarchy.ts:17-38).  The objects created are
      `nodes`, the root first; each holds what arena entry of the same
      number describes, and the value the root then denotes is the tree
      of the specification. */
  method BuildHierarchy(chars: seq<char>) returns (root: HierarchicalTree, ghost nodes: seq<HierarchicalTree>, ghost arena: Arena)
    ensures |nodes| == |arena| > 0 && nodes[0] == root && Unique(nodes)
    ensures Mirrors(nodes, arena)
    ensures TreeAt(arena, 0) == Hierarchy(chars)
    ensures root.Length() == |Hierarchy(chars).items|
  {
    root := new HierarchicalTree([]);
    var stack := [root];
    nodes := [root];
    ghost var s := State([[]], [0]);
    ghost var done: nat := 0;
    RelBegin();
    for i := 0 to |chars|
      invariant Rel(s, Run(chars[..i]), done)
      invariant |nodes| == |s.arena| && nodes[0] == root && Unique(nodes)
      invariant forall j :: 0 <= j < |nodes| ==> fresh(nodes[j])
      invariant Mirrors(nodes, s.arena)
      invariant Tracks(stack, nodes, s)
    {
      var ch := chars[i];
      assert chars[..i + 1][..i] == chars[..i];
      done := RelStep(s, Run(chars[..i]), done, ch);
      if IsOpening(ch) {
        var next := OpenLevel(stack, nodes, s, ch);
        stack := stack + [next];
        nodes := nodes + [next];
      } else if IsClosing(ch) {
        if |stack| > 0 {
          stack := stack[..|stack| - 1];
        }
      } else {
        AddChar(stack, nodes, s, ch);
      }
      s := ArenaStep(s, ch);
    }
    arena := s.arena;
    assert chars[..|chars|] == chars;
    RelRoot(s, chars, done);
  }

  /** The stack holds the objects of the open levels, in order. */
  ghost predicate Tracks(stack: seq<HierarchicalTree>, nodes: seq<HierarchicalTree>, s: State)
  {
    && Fits(s)
    && |nodes| == |s.arena|
    && |stack| == |s.ids|
    && forall j :: 0 <= j < |stack| ==> stack[j] == nodes[s.ids[j]]
  }

  /** An opening bracket (src/hierarchy.ts:22-27): a new empty level is
      pushed onto the current one, if any, and opened. */
  method OpenLevel(stack: seq<HierarchicalTree>, ghost nodes: seq<HierarchicalTree>, ghost s: State, ghost ch: char)
    returns (next: HierarchicalTree)
    requires Tracks(stack, nodes, s) && Mirrors(nodes, s.arena) && Unique(nodes) && IsOpening(ch)
    modifies if stack == [] then {} else {stack[|stack| - 1]}
    ensures fresh(next) && Unique(nodes + [next])
    ensures Tracks(stack + [next], nodes + [next], ArenaStep(s, ch))
    ensures Mirrors(nodes + [next], ArenaStep(s, ch).arena)
  {
    next := new HierarchicalTree([]);
    var n := |nodes|;
    var nodes' := nodes + [next];
    forall i | 0 <= i < n ensures Decode(s.arena[i], nodes') == Decode(s.arena[i], nodes) {
      assert forall k :: 0 <= k < |s.arena[i]| && s.arena[i][k].Ref? ==> nodes'[s.arena[i][k].index] == nodes[s.arena[i][k].index];
    }
    if stack != [] {
      var x := s.ids[|s.ids| - 1];
      var cells := s.arena[x] + [Ref(n)];
      assert Decode(cells, nodes') == Decode(s.arena[x], nodes') + [Branch(next)];
      stack[|stack| - 1].Push(Branch(next));
      forall i | 0 <= i < n && i != x ensures nodes[i].items == old(nodes[i].items) {
        assert nodes[i] != nodes[x];
      }
    }
    assert Decode([], nodes') == [];
  }

  /** Any character but a bracket (src/hierarchy.ts:34): pushed onto the
      current level, if any. */
  method AddChar(stack: seq<HierarchicalTree>, ghost nodes: seq<HierarchicalTree>, ghost s: State, ch: char)
    requires Tracks(stack, nodes, s) && Mirrors(nodes, s.arena) && Unique(nodes)
    requires !IsOpening(ch) && !IsClosing(ch)
    modifies if stack == [] then {} else {stack[|stack| - 1]}
    ensures Mirrors(nodes, ArenaStep(s, ch).arena)
  {
    if stack != [] {
      var x := s.ids[|s.ids| - 1];
      assert Decode(s.arena[x] + [Ch(ch)], nodes) == Decode(s.arena[x], nodes) + [Leaf(ch)];
      stack[|stack| - 1].Push(Leaf(ch));
      forall i | 0 <= i < |nodes| && i != x ensures nodes[i].items == old(nodes[i].items) {
        assert nodes[i] != nodes[x];
      }
    }
  }
}
