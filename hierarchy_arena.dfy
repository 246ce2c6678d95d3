/**
 * The bridge between the heap objects `buildHierarchy` creates and the
 * value its specification describes.
 *
 * The nodes created by one run are numbered in creation order; an arena
 * lists, for each node, its items with every child node replaced by its
 * number.  A child is always created after its parent, so every reference
 * points forward, and the value of a node is read off the arena by
 * recursion on the number of later nodes.  The stack of open nodes is a
 * list of numbers.
 *
 * `Rel` ties an arena and a stack to a state of the specification's
 * zipper, and the step lemmas show that one character read by the source's
 * loop and one step of the zipper keep them tied.
 */
module HierarchyArena {
  import opened Chars
  import opened HierarchySpec

  /** One item of a node: a character, or the number of a child node. */
  datatype Cell = Ch(c: char) | Ref(index: nat)

  type Arena = seq<seq<Cell>>

  /** Every reference points to a later node of the arena. */
  ghost predicate Forward(a: Arena)
  {
    forall i, k :: 0 <= i < |a| && 0 <= k < |a[i]| && a[i][k].Ref? ==> i < a[i][k].index < |a|
  }

  /** The value of node `i`. */
  ghost function TreeAt(a: Arena, i: nat): Tree
    requires Forward(a) && i < |a|
    decreases |a| - i, 1
  {
    Tree(seq(|a[i]|, k requires 0 <= k < |a[i]| => ItemOf(a, a[i][k], i)))
  }

  /** The value of one cell of node `i`. */
  ghost function ItemOf(a: Arena, c: Cell, i: nat): Item
    requires Forward(a) && i < |a|
    requires c.Ref? ==> i < c.index < |a|
    decreases |a| - i, 0
  {
    match c
    case Ch(x) => Char(x)
    case Ref(j) => Sub(TreeAt(a, j))
  }

  /** Nodes `lo` to `hi` (excluded) refer only to nodes below `hi`. */
  ghost predicate Closed(a: Arena, lo: nat, hi: nat)
  {
    lo <= hi <= |a|
    && forall i, k :: lo <= i < hi && 0 <= k < |a[i]| && a[i][k].Ref? ==> a[i][k].index < hi
  }

  /** The values of the nodes of a closed range depend only on the range. */
  lemma Frame(a: Arena, b: Arena, lo: nat, hi: nat, i: nat)
    requires Forward(a) && Forward(b) && Closed(a, lo, hi) && hi <= |b|
    requires forall x :: lo <= x < hi ==> a[x] == b[x]
    requires lo <= i < hi
    ensures TreeAt(a, i) == TreeAt(b, i)
    decreases hi - i
  {
    forall k | 0 <= k < |a[i]| ensures ItemOf(a, a[i][k], i) == ItemOf(b, b[i][k], i) {
      if a[i][k].Ref? {
        Frame(a, b, lo, hi, a[i][k].index);
      }
    }
  }

  lemma ClosedFrame(a: Arena, b: Arena, lo: nat, hi: nat)
    requires Closed(a, lo, hi) && hi <= |b|
    requires forall x :: lo <= x < hi ==> a[x] == b[x]
    ensures Closed(b, lo, hi)
  {
  }

  /** The value of a cell of node `i` whose reference lies in a closed
      range, in two arenas that agree on the range. */
  lemma ItemFrame(a: Arena, b: Arena, lo: nat, hi: nat, c: Cell, i: nat)
    requires Forward(a) && Forward(b) && Closed(a, lo, hi) && hi <= |b|
    requires forall x :: lo <= x < hi ==> a[x] == b[x]
    requires i < |a| && i < |b|
    requires c.Ref? ==> i < c.index < |a| && lo <= c.index < hi
    ensures ItemOf(a, c, i) == ItemOf(b, c, i)
  {
    if c.Ref? {
      Frame(a, b, lo, hi, c.index);
    }
  }

  /** The arena and the stack of open nodes (as numbers, root first). */
  datatype State = State(arena: Arena, ids: seq<nat>)

  ghost predicate Fits(s: State)
  {
    forall j :: 0 <= j < |s.ids| ==> s.ids[j] < |s.arena|
  }

  /** One character read by the loop of `buildHierarchy`. */
  ghost function ArenaStep(s: State, ch: char): (r: State)
    requires Fits(s)
    ensures Fits(r)
  {
    var a, ids := s.arena, s.ids;
    if IsOpening(ch) then
      var n := |a|;
      var a' := if ids == [] then a else a[ids[|ids| - 1] := a[ids[|ids| - 1]] + [Ref(n)]];
      State(a' + [[]], ids + [n])
    else if IsClosing(ch) then
      State(a, if ids == [] then [] else ids[..|ids| - 1])
    else if ids == [] then s
    else State(a[ids[|ids| - 1] := a[ids[|ids| - 1]] + [Ch(ch)]], ids)
  }

  ghost predicate Increasing(ids: seq<nat>)
  {
    forall j, k :: 0 <= j < k < |ids| ==> ids[j] < ids[k]
  }

  /** Node `x` is open below the top of the stack: its cells but the last
      spell `items`, its last cell is the next open node `y`, and everything
      in between is closed. */
  ghost predicate LevelOpen(a: Arena, x: nat, y: nat, items: seq<Item>)
    requires Forward(a) && x < y <= |a|
  {
    && |a[x]| == |items| + 1
    && a[x][|items|] == Ref(y)
    && Closed(a, x + 1, y)
    && (forall k :: 0 <= k < |items| && a[x][k].Ref? ==> a[x][k].index < y)
    && (forall k :: 0 <= k < |items| ==> ItemOf(a, a[x][k], x) == items[k])
  }

  /** Node `x` is the top of the stack: its cells spell `items`, and every
      later node is closed. */
  ghost predicate LevelTop(a: Arena, x: nat, items: seq<Item>)
    requires Forward(a) && x < |a|
  {
    && |a[x]| == |items|
    && Closed(a, x + 1, |a|)
    && (forall k :: 0 <= k < |items| ==> ItemOf(a, a[x][k], x) == items[k])
  }

  /** The arena state `s` represents the zipper state `b`.  Once the root
      is closed, nodes `0` to `done` (excluded) are the finished tree, and
      the nodes the loop still touches all come after them. */
  ghost predicate Rel(s: State, b: Builder, done: nat)
  {
    && Forward(s.arena)
    && Fits(s)
    && match b
       case Finished(t) =>
         && 0 < done <= |s.arena|
         && Closed(s.arena, 0, done)
         && TreeAt(s.arena, 0) == t
         && (forall j :: 0 <= j < |s.ids| ==> done <= s.ids[j])
       case Building(frames) =>
         && |s.ids| == |frames| >= 1
         && s.ids[0] == 0
         && Increasing(s.ids)
         && (forall j :: 0 <= j < |frames| - 1 ==> LevelOpen(s.arena, s.ids[j], s.ids[j + 1], frames[j]))
         && LevelTop(s.arena, s.ids[|frames| - 1], frames[|frames| - 1])
  }

  /** The state before the first character: the root alone, open. */
  lemma RelBegin()
    ensures Rel(State([[]], [0]), Run([]), 0)
  {
    assert Run([]) == Building([[]]);
  }

  /** Growing the top node of the stack, and possibly appending nodes, keeps
      the levels below the top as they were. */
  lemma LowerLevels(a: Arena, a': Arena, ids: seq<nat>, frames: seq<seq<Item>>)
    requires Forward(a) && Forward(a') && |a| <= |a'|
    requires |ids| == |frames| >= 1 && Increasing(ids)
    requires forall j :: 0 <= j < |ids| ==> ids[j] < |a|
    requires forall i :: 0 <= i < |a| && i != ids[|ids| - 1] ==> a'[i] == a[i]
    requires forall j :: 0 <= j < |frames| - 1 ==> LevelOpen(a, ids[j], ids[j + 1], frames[j])
    ensures forall j :: 0 <= j < |frames| - 1 ==> LevelOpen(a', ids[j], ids[j + 1], frames[j])
  {
    var top := ids[|ids| - 1];
    forall j | 0 <= j < |frames| - 1
      ensures LevelOpen(a', ids[j], ids[j + 1], frames[j])
    {
      var x, y := ids[j], ids[j + 1];
      assert y <= top;
      assert a'[x] == a[x];
      ClosedFrame(a, a', x + 1, y);
      forall k | 0 <= k < |frames[j]| ensures ItemOf(a', a'[x][k], x) == frames[j][k] {
        ItemFrame(a, a', x + 1, y, a[x][k], x);
      }
    }
  }

  /** Appending a cell to the top node keeps the values of its earlier
      cells. */
  lemma TopCells(a: Arena, a': Arena, x: nat)
    requires Forward(a) && Forward(a') && x < |a| <= |a'|
    requires Closed(a, x + 1, |a|)
    requires forall i :: x < i < |a| ==> a'[i] == a[i]
    requires |a[x]| <= |a'[x]| && a'[x][..|a[x]|] == a[x]
    ensures forall k :: 0 <= k < |a[x]| ==> ItemOf(a', a'[x][k], x) == ItemOf(a, a[x][k], x)
  {
    forall k | 0 <= k < |a[x]| ensures ItemOf(a', a'[x][k], x) == ItemOf(a, a[x][k], x) {
      assert a'[x][k] == a[x][k];
      ItemFrame(a, a', x + 1, |a|, a[x][k], x);
    }
  }

  /** A character other than a bracket, read while the root is open. */
  lemma CharStep(s: State, frames: seq<seq<Item>>, ch: char)
    requires Rel(s, Building(frames), 0) && !IsOpening(ch) && !IsClosing(ch)
    ensures Rel(ArenaStep(s, ch), Step(Building(frames), ch), 0)
  {
    var a, ids := s.arena, s.ids;
    var m := |ids| - 1;
    var x := ids[m];
    var a' := a[x := a[x] + [Ch(ch)]];
    var frames' := frames[..m] + [frames[m] + [Char(ch)]];
    assert ArenaStep(s, ch) == State(a', ids);
    assert Step(Building(frames), ch) == Building(frames');
    assert Forward(a');
    LowerLevels(a, a', ids, frames);
    forall j | 0 <= j < |frames'| - 1
      ensures LevelOpen(a', ids[j], ids[j + 1], frames'[j])
    {
      assert frames'[j] == frames[j];
    }
    assert a'[x][..|a[x]|] == a[x];
    TopCells(a, a', x);
    ClosedFrame(a, a', x + 1, |a|);
    assert LevelTop(a', x, frames'[m]);
  }

  /** An opening bracket read while the root is open. */
  lemma OpenStep(s: State, frames: seq<seq<Item>>, ch: char)
    requires Rel(s, Building(frames), 0) && IsOpening(ch)
    ensures Rel(ArenaStep(s, ch), Step(Building(frames), ch), 0)
  {
    var a, ids := s.arena, s.ids;
    var m := |ids| - 1;
    var x, n := ids[m], |a|;
    var a' := a[x := a[x] + [Ref(n)]] + [[]];
    var ids' := ids + [n];
    var frames' := frames + [[]];
    assert ArenaStep(s, ch) == State(a', ids');
    assert Step(Building(frames), ch) == Building(frames');
    assert Forward(a');
    LowerLevels(a, a', ids, frames);
    forall j | 0 <= j < m
      ensures LevelOpen(a', ids'[j], ids'[j + 1], frames'[j])
    {
      assert ids'[j] == ids[j] && ids'[j + 1] == ids[j + 1] && frames'[j] == frames[j];
    }
    assert a'[x][..|a[x]|] == a[x];
    TopCells(a, a', x);
    ClosedFrame(a, a', x + 1, n);
    assert LevelOpen(a', x, n, frames[m]);
    assert LevelTop(a', n, []);
    assert Increasing(ids');
  }

  /** A closing bracket read while a node below the root is open. */
  lemma CloseStep(s: State, frames: seq<seq<Item>>, ch: char)
    requires Rel(s, Building(frames), 0) && IsClosing(ch) && |frames| >= 2
    ensures Rel(ArenaStep(s, ch), Step(Building(frames), ch), 0)
  {
    var a, ids := s.arena, s.ids;
    var m := |ids| - 1;
    var x, y := ids[m], ids[m - 1];
    var ids' := ids[..m];
    var sub := Sub(Tree(frames[m]));
    var items := frames[m - 1] + [sub];
    var frames' := frames[..m - 1] + [items];
    assert ArenaStep(s, ch) == State(a, ids');
    assert Step(Building(frames), ch) == Building(frames');
    forall j | 0 <= j < m - 1
      ensures LevelOpen(a, ids'[j], ids'[j + 1], frames'[j])
    {
      assert ids'[j] == ids[j] && ids'[j + 1] == ids[j + 1] && frames'[j] == frames[j];
    }
    assert LevelOpen(a, y, x, frames[m - 1]);
    assert LevelTop(a, x, frames[m]);
    assert TreeAt(a, x) == Tree(frames[m]);
    assert ItemOf(a, a[y][|frames[m - 1]|], y) == sub;
    assert Closed(a, y + 1, |a|);
    assert LevelTop(a, y, items);
    assert Increasing(ids');
  }

  /** The closing bracket that closes the root. */
  lemma CloseRoot(s: State, frames: seq<seq<Item>>, ch: char) returns (done: nat)
    requires Rel(s, Building(frames), 0) && IsClosing(ch) && |frames| == 1
    ensures Rel(ArenaStep(s, ch), Step(Building(frames), ch), done)
  {
    var a := s.arena;
    done := |a|;
    assert ArenaStep(s, ch) == State(a, []);
    assert Step(Building(frames), ch) == Finished(Tree(frames[0]));
    assert LevelTop(a, 0, frames[0]);
    assert TreeAt(a, 0) == Tree(frames[0]);
  }

  /** Any character read after the root has been closed: the loop only
      touches detached nodes, and the finished tree keeps its value. */
  lemma FinishedStep(s: State, t: Tree, done: nat, ch: char)
    requires Rel(s, Finished(t), done)
    ensures Rel(ArenaStep(s, ch), Finished(t), done)
  {
    var a := s.arena;
    var s' := ArenaStep(s, ch);
    var a' := s'.arena;
    assert Forward(a');
    assert forall i :: 0 <= i < done ==> a'[i] == a[i];
    ClosedFrame(a, a', 0, done);
    Frame(a, a', 0, done, 0);
  }

  /** One character keeps the arena and the zipper tied. */
  lemma RelStep(s: State, b: Builder, done: nat, ch: char) returns (done': nat)
    requires Rel(s, b, done) && Valid(b)
    ensures Rel(ArenaStep(s, ch), Step(b, ch), done')
  {
    done' := done;
    match b
    case Finished(t) =>
      FinishedStep(s, t, done, ch);
    case Building(frames) =>
      if IsOpening(ch) {
        OpenStep(s, frames, ch);
      } else if IsClosing(ch) {
        if |frames| == 1 {
          done' := CloseRoot(s, frames, ch);
        } else {
          CloseStep(s, frames, ch);
        }
      } else {
        CharStep(s, frames, ch);
      }
  }

  /** The open nodes, read off the arena, nest into one another. */
  lemma {:induction false} NestAt(s: State, frames: seq<seq<Item>>, j: nat)
    requires Rel(s, Building(frames), 0) && j < |frames|
    ensures TreeAt(s.arena, s.ids[j]) == Nest(frames[j..])
    decreases |frames| - j
  {
    var a, ids := s.arena, s.ids;
    var x := ids[j];
    if j == |frames| - 1 {
      assert LevelTop(a, x, frames[j]);
      assert frames[j..] == [frames[j]];
      assert TreeAt(a, x).items == frames[j];
    } else {
      NestAt(s, frames, j + 1);
      assert LevelOpen(a, x, ids[j + 1], frames[j]);
      assert frames[j..][1..] == frames[j + 1..];
      var items := frames[j] + [Sub(Nest(frames[j + 1..]))];
      assert TreeAt(a, x).items == items;
    }
  }

  /** The root, read off the arena, is the tree of the specification. */
  lemma RelRoot(s: State, chars: seq<char>, done: nat)
    requires Rel(s, Run(chars), done)
    ensures |s.arena| > 0 && TreeAt(s.arena, 0) == Hierarchy(chars)
  {
    match Run(chars)
    case Finished(t) =>
    case Building(frames) =>
      NestAt(s, frames, 0);
      assert frames[0..] == frames;
  }
}
