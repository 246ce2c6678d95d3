/**
 * What `buildHierarchy` (src/hierarchy.ts:17-38) computes, stated on
 * values: a tree whose items are characters and nested subtrees, one
 * subtree per opening bracket.
 *
 * The specification reads the characters one at a time into a zipper: the
 * item lists of the nodes from the root down to the innermost open node.
 * An opening bracket opens a new innermost node, a closing bracket closes
 * it into its parent, and any other character is appended to it.  Closing
 * the root finishes the tree, and every later character is ignored.  At the
 * end the nodes still open are nested into one another.
 */
module HierarchySpec {
  import opened Chars

  datatype Item = Char(c: char) | Sub(tree: Tree)
  datatype Tree = Tree(items: seq<Item>)

  /** The state after a prefix of the characters: the item lists of the open
      nodes, root first, or the root once it has been closed. */
  datatype Builder = Building(frames: seq<seq<Item>>) | Finished(root: Tree)

  predicate Valid(b: Builder)
  {
    b.Building? ==> |b.frames| >= 1
  }

  function Step(b: Builder, ch: char): (r: Builder)
    requires Valid(b)
    ensures Valid(r)
  {
    match b
    case Finished(_) => b
    case Building(frames) =>
      var m := |frames| - 1;
      if IsOpening(ch) then Building(frames + [[]])
      else if IsClosing(ch) then
        if m == 0 then Finished(Tree(frames[0]))
        else Building(frames[..m - 1] + [frames[m - 1] + [Sub(Tree(frames[m]))]])
      else Building(frames[..m] + [frames[m] + [Char(ch)]])
  }

  function Run(chars: seq<char>): (b: Builder)
    ensures Valid(b)
  {
    if chars == [] then Building([[]])
    else Step(Run(chars[..|chars| - 1]), chars[|chars| - 1])
  }

  /** The open nodes nested into one another, each one the last item of its
      parent. */
  function Nest(frames: seq<seq<Item>>): Tree
    requires |frames| >= 1
  {
    if |frames| == 1 then Tree(frames[0])
    else Tree(frames[0] + [Sub(Nest(frames[1..]))])
  }

  /** The tree `buildHierarchy` returns for `chars`. */
  function Hierarchy(chars: seq<char>): Tree
  {
    match Run(chars)
    case Finished(root) => root
    case Building(frames) => Nest(frames)
  }

  /** Opening minus closing brackets. */
  function Balance(s: seq<char>): int
  {
    if s == [] then 0
    else
      var c := s[|s| - 1];
      Balance(s[..|s| - 1]) + (if IsOpening(c) then 1 else if IsClosing(c) then -1 else 0)
  }

  /** No prefix closes more brackets than it opens. */
  ghost predicate NoUnderflow(s: seq<char>)
  {
    forall k :: 0 <= k <= |s| ==> Balance(s[..k]) >= 0
  }

  lemma NoUnderflowSplit(s: seq<char>)
    requires s != []
    ensures NoUnderflow(s) <==> NoUnderflow(s[..|s| - 1]) && Balance(s) >= 0
  {
    var p := s[..|s| - 1];
    forall k | 0 <= k <= |p| ensures p[..k] == s[..k] { }
    assert s[..|s|] == s;
  }

  /** The root stays open exactly as long as no prefix underflows, and then
      one node is open per unclosed bracket, plus the root. */
  lemma {:induction false} RunOpen(chars: seq<char>)
    ensures Run(chars).Building? <==> NoUnderflow(chars)
    ensures Run(chars).Building? ==> |Run(chars).frames| == Balance(chars) + 1
  {
    if chars == [] {
      assert NoUnderflow(chars) by {
        forall k | 0 <= k <= 0 ensures Balance(chars[..k]) >= 0 {
          assert chars[..k] == [];
        }
      }
    } else {
      var p := chars[..|chars| - 1];
      RunOpen(p);
      NoUnderflowSplit(chars);
    }
  }

  /** Once the root is closed, the characters that follow change nothing. */
  lemma {:induction false} FinishedIgnoresRest(p: seq<char>, s: seq<char>)
    requires Run(p).Finished?
    ensures Run(p + s) == Run(p)
    ensures Hierarchy(p + s) == Hierarchy(p)
  {
    if s == [] {
      assert p + s == p;
    } else {
      var s' := s[..|s| - 1];
      FinishedIgnoresRest(p, s');
      assert (p + s)[..|p + s| - 1] == p + s';
    }
  }

  /** The characters, left to right, of a tree. */
  function Flatten(t: Tree): seq<char>
    decreases t
  {
    FlattenItems(t.items)
  }

  function FlattenItems(items: seq<Item>): seq<char>
    decreases items
  {
    if items == [] then []
    else FlattenItems(items[..|items| - 1]) + FlattenItem(items[|items| - 1])
  }

  function FlattenItem(item: Item): seq<char>
    decreases item
  {
    match item
    case Char(c) => [c]
    case Sub(t) => Flatten(t)
  }

  /** The characters of the open nodes, root first. */
  function FramesFlat(frames: seq<seq<Item>>): seq<char>
  {
    if frames == [] then [] else FlattenItems(frames[0]) + FramesFlat(frames[1..])
  }

  lemma {:induction false} FramesFlatLast(init: seq<seq<Item>>, f: seq<Item>)
    ensures FramesFlat(init + [f]) == FramesFlat(init) + FlattenItems(f)
  {
    if init == [] {
      assert [f][1..] == [];
    } else {
      assert (init + [f])[1..] == init[1..] + [f];
      FramesFlatLast(init[1..], f);
    }
  }

  lemma {:induction false} FlattenNest(frames: seq<seq<Item>>)
    requires |frames| >= 1
    ensures Flatten(Nest(frames)) == FramesFlat(frames)
  {
    if |frames| == 1 {
      assert frames[1..] == [];
    } else {
      FlattenNest(frames[1..]);
      var sub := Sub(Nest(frames[1..]));
      var items := frames[0] + [sub];
      assert items[..|items| - 1] == frames[0] && items[|items| - 1] == sub;
      assert Flatten(Nest(frames)) == FlattenItems(items);
      assert FlattenItems(items) == FlattenItems(frames[0]) + Flatten(Nest(frames[1..]));
    }
  }

  /** The input without its six bracket characters. */
  function Strip(s: seq<char>): seq<char>
  {
    if s == [] then []
    else Strip(s[..|s| - 1]) + (if IsBracket(s[|s| - 1]) then [] else [s[|s| - 1]])
  }

  /** Opening a node adds no character. */
  lemma OpenFlat(frames: seq<seq<Item>>)
    ensures FramesFlat(frames + [[]]) == FramesFlat(frames)
  {
    FramesFlatLast(frames, []);
  }

  lemma FlattenSnoc(items: seq<Item>, item: Item)
    ensures FlattenItems(items + [item]) == FlattenItems(items) + FlattenItem(item)
  {
    assert (items + [item])[..|items|] == items;
  }

  /** A sequence is its prefix followed by its last element. */
  lemma FramesSplit(frames: seq<seq<Item>>)
    requires frames != []
    ensures frames == frames[..|frames| - 1] + [frames[|frames| - 1]]
  {
  }

  /** A sequence of two or more is its prefix followed by its last two
      elements. */
  lemma FramesSplitTwo(frames: seq<seq<Item>>)
    requires |frames| >= 2
    ensures var m := |frames| - 1;
            frames == frames[..m - 1] + [frames[m - 1]] + [frames[m]]
  {
  }

  /** Closing the innermost node into its parent keeps the characters. */
  lemma CloseFlat(init: seq<seq<Item>>, x: seq<Item>, y: seq<Item>)
    ensures FramesFlat(init + [x + [Sub(Tree(y))]]) == FramesFlat(init + [x] + [y])
  {
    FramesFlatLast(init + [x], y);
    FramesFlatLast(init, x);
    FramesFlatLast(init, x + [Sub(Tree(y))]);
    FlattenSnoc(x, Sub(Tree(y)));
    assert FlattenItem(Sub(Tree(y))) == FlattenItems(y);
    var a, b, c := FramesFlat(init), FlattenItems(x), FlattenItems(y);
    assert (a + b) + c == a + (b + c);
  }

  /** Appending a character to the innermost node appends it to the
      characters. */
  lemma AppendFlat(frames: seq<seq<Item>>, ch: char)
    requires |frames| >= 1
    ensures var m := |frames| - 1;
            FramesFlat(frames[..m] + [frames[m] + [Char(ch)]]) == FramesFlat(frames) + [ch]
  {
    var m := |frames| - 1;
    var init, x := frames[..m], frames[m];
    FramesSplit(frames);
    FramesFlatLast(init, x);
    FramesFlatLast(init, x + [Char(ch)]);
    FlattenSnoc(x, Char(ch));
  }

  /** While the root is open, the open nodes hold exactly the characters
      read so far that are not brackets, in order. */
  lemma {:induction false} RunFlat(chars: seq<char>)
    ensures Run(chars).Building? ==> FramesFlat(Run(chars).frames) == Strip(chars)
  {
    if chars != [] {
      var p, ch := chars[..|chars| - 1], chars[|chars| - 1];
      RunFlat(p);
      var b := Run(p);
      assert Run(chars) == Step(b, ch);
      assert Strip(chars) == Strip(p) + (if IsBracket(ch) then [] else [ch]);
      if b.Building? {
        var frames := b.frames;
        if IsOpening(ch) {
          OpenFlat(frames);
        } else if IsClosing(ch) {
          if |frames| > 1 {
            var m := |frames| - 1;
            FramesSplitTwo(frames);
            CloseFlat(frames[..m - 1], frames[m - 1], frames[m]);
          }
        } else {
          AppendFlat(frames, ch);
        }
      }
    }
  }

  /** If no prefix underflows, the tree holds every non-bracket character of
      the input, in order, including those inside brackets never closed. */
  lemma HierarchyFlatten(chars: seq<char>)
    requires NoUnderflow(chars)
    ensures Flatten(Hierarchy(chars)) == Strip(chars)
  {
    RunOpen(chars);
    RunFlat(chars);
    FlattenNest(Run(chars).frames);
  }

  /** The number of subtrees in a tree, at any depth. */
  function Subtrees(t: Tree): nat
    decreases t
  {
    SubtreesItems(t.items)
  }

  function SubtreesItems(items: seq<Item>): nat
    decreases items
  {
    if items == [] then 0
    else SubtreesItems(items[..|items| - 1]) + SubtreesItem(items[|items| - 1])
  }

  function SubtreesItem(item: Item): nat
    decreases item
  {
    match item
    case Char(_) => 0
    case Sub(t) => 1 + Subtrees(t)
  }

  /** Subtrees of the open nodes, counting every open node below the
      root. */
  function FramesSubtrees(frames: seq<seq<Item>>): nat
  {
    if frames == [] then 0 else SubtreesItems(frames[0]) + FramesSubtrees(frames[1..])
  }

  lemma {:induction false} FramesSubtreesLast(init: seq<seq<Item>>, f: seq<Item>)
    ensures FramesSubtrees(init + [f]) == FramesSubtrees(init) + SubtreesItems(f)
  {
    if init == [] {
      assert [f][1..] == [];
    } else {
      assert (init + [f])[1..] == init[1..] + [f];
      FramesSubtreesLast(init[1..], f);
    }
  }

  lemma {:induction false} SubtreesNest(frames: seq<seq<Item>>)
    requires |frames| >= 1
    ensures Subtrees(Nest(frames)) == FramesSubtrees(frames) + |frames| - 1
  {
    if |frames| == 1 {
      assert frames[1..] == [];
    } else {
      SubtreesNest(frames[1..]);
      var sub := Sub(Nest(frames[1..]));
      var items := frames[0] + [sub];
      assert items[..|items| - 1] == frames[0] && items[|items| - 1] == sub;
      assert Subtrees(Nest(frames)) == SubtreesItems(items);
      assert SubtreesItems(items) == SubtreesItems(frames[0]) + 1 + Subtrees(Nest(frames[1..]));
    }
  }

  function Openings(s: seq<char>): nat
  {
    if s == [] then 0
    else Openings(s[..|s| - 1]) + (if IsOpening(s[|s| - 1]) then 1 else 0)
  }

  lemma {:induction false} RunSubtrees(chars: seq<char>)
    ensures Run(chars).Building? ==>
              FramesSubtrees(Run(chars).frames) + |Run(chars).frames| - 1 == Openings(chars)
  {
    if chars != [] {
      var p, ch := chars[..|chars| - 1], chars[|chars| - 1];
      RunSubtrees(p);
      var b := Run(p);
      if b.Building? {
        var frames := b.frames;
        var m := |frames| - 1;
        assert frames == frames[..m] + [frames[m]];
        FramesSubtreesLast(frames[..m], frames[m]);
        if IsOpening(ch) {
          FramesSubtreesLast(frames, []);
        } else if IsClosing(ch) {
          if m > 0 {
            var sub := Sub(Tree(frames[m]));
            assert frames[..m] == frames[..m - 1] + [frames[m - 1]];
            FramesSubtreesLast(frames[..m - 1], frames[m - 1]);
            var items := frames[m - 1] + [sub];
            FramesSubtreesLast(frames[..m - 1], items);
            assert items[..|items| - 1] == frames[m - 1] && items[|items| - 1] == sub;
            assert SubtreesItem(sub) == 1 + Subtrees(Tree(frames[m])) == 1 + SubtreesItems(frames[m]);
            assert SubtreesItems(items) == SubtreesItems(frames[m - 1]) + 1 + SubtreesItems(frames[m]);
            assert Run(chars).frames == frames[..m - 1] + [items];
          }
        } else {
          FramesSubtreesLast(frames[..m], frames[m] + [Char(ch)]);
          assert (frames[m] + [Char(ch)])[..|frames[m]|] == frames[m];
        }
      }
    }
  }

  /** If no prefix underflows, there is one subtree per opening bracket,
      closed or not. */
  lemma HierarchySubtrees(chars: seq<char>)
    requires NoUnderflow(chars)
    ensures Subtrees(Hierarchy(chars)) == Openings(chars)
  {
    RunOpen(chars);
    RunSubtrees(chars);
    SubtreesNest(Run(chars).frames);
  }

  /** Two inputs that differ only in the shapes of their brackets. */
  predicate SameShape(a: seq<char>, b: seq<char>)
  {
    |a| == |b|
    && forall i :: 0 <= i < |a| ==>
         a[i] == b[i] || (IsOpening(a[i]) && IsOpening(b[i])) || (IsClosing(a[i]) && IsClosing(b[i]))
  }

  /** `(`, `[` and `{` are interchangeable, and so are `)`, `]` and `}`. */
  lemma {:induction false} ShapesInterchangeable(a: seq<char>, b: seq<char>)
    requires SameShape(a, b)
    ensures Run(a) == Run(b)
    ensures Hierarchy(a) == Hierarchy(b)
  {
    if a != [] {
      var n := |a| - 1;
      assert SameShape(a[..n], b[..n]);
      ShapesInterchangeable(a[..n], b[..n]);
    }
  }

  /** No bracket character is stored anywhere in a tree. */
  ghost predicate Clean(t: Tree)
    decreases t
  {
    CleanItems(t.items)
  }

  ghost predicate CleanItems(items: seq<Item>)
    decreases items
  {
    forall i :: 0 <= i < |items| ==> CleanItem(items[i])
  }

  ghost predicate CleanItem(item: Item)
    decreases item
  {
    match item
    case Char(c) => !IsBracket(c)
    case Sub(t) => Clean(t)
  }

  lemma {:induction false} CleanNest(frames: seq<seq<Item>>)
    requires |frames| >= 1
    requires forall j :: 0 <= j < |frames| ==> CleanItems(frames[j])
    ensures Clean(Nest(frames))
  {
    if |frames| > 1 {
      CleanNest(frames[1..]);
      var items := frames[0] + [Sub(Nest(frames[1..]))];
      assert forall i :: 0 <= i < |frames[0]| ==> items[i] == frames[0][i];
    }
  }

  lemma {:induction false} RunClean(chars: seq<char>)
    ensures Run(chars).Building? ==> forall j :: 0 <= j < |Run(chars).frames| ==> CleanItems(Run(chars).frames[j])
    ensures Run(chars).Finished? ==> Clean(Run(chars).root)
  {
    if chars != [] {
      var p, ch := chars[..|chars| - 1], chars[|chars| - 1];
      RunClean(p);
      var b := Run(p);
      if b.Building? {
        var frames := b.frames;
        var m := |frames| - 1;
        if IsOpening(ch) {
          assert CleanItems([]);
        } else if IsClosing(ch) {
          if m > 0 {
            var items := frames[m - 1] + [Sub(Tree(frames[m]))];
            assert CleanItem(Sub(Tree(frames[m])));
            assert CleanItems(items);
          }
        } else {
          var items := frames[m] + [Char(ch)];
          assert CleanItems(items);
        }
      }
    }
  }

  /** Whatever the input, no bracket character ends up in the tree. */
  lemma HierarchyClean(chars: seq<char>)
    ensures Clean(Hierarchy(chars))
  {
    RunClean(chars);
    if Run(chars).Building? {
      CleanNest(Run(chars).frames);
    }
  }

  /** A nested operand becomes a subtree. */
  lemma NestedExample()
    ensures Hierarchy("p(q)") == Tree([Char('p'), Sub(Tree([Char('q')]))])
  {
    var p, q := Char('p'), Char('q');
    assert Run("p") == Building([[p]]) by {
      assert "p"[..0] == "";
      var e: seq<seq<Item>> := [[]];
      assert e[..0] == [] && e[0] + [p] == [p];
      assert e[..0] + [e[0] + [p]] == [[p]];
    }
    assert Run("p(") == Building([[p], []]) by {
      assert "p("[..1] == "p";
    }
    var f: seq<seq<Item>> := [[p], []];
    assert Run("p(q") == Building([[p], [q]]) by {
      assert "p(q"[..2] == "p(";
      assert f[..1] == [[p]] && f[1] + [q] == [q];
      assert f[..1] + [f[1] + [q]] == [[p], [q]];
    }
    var g: seq<seq<Item>> := [[p], [q]];
    assert Run("p(q)") == Building([[p, Sub(Tree([q]))]]) by {
      assert "p(q)"[..3] == "p(q";
      assert g[..0] == [] && g[0] + [Sub(Tree(g[1]))] == [p, Sub(Tree([q]))];
      assert g[..0] + [g[0] + [Sub(Tree(g[1]))]] == [[p, Sub(Tree([q]))]];
    }
  }

  /** An extra closing bracket closes the root and drops what follows. */
  lemma ExtraCloseExample()
    ensures Hierarchy("p)q") == Tree([Char('p')])
  {
    var p := Char('p');
    assert Run("p") == Building([[p]]) by {
      assert "p"[..0] == "";
      var e: seq<seq<Item>> := [[]];
      assert e[..0] == [] && e[0] + [p] == [p];
      assert e[..0] + [e[0] + [p]] == [[p]];
    }
    assert Run("p)") == Finished(Tree([p])) by {
      assert "p)"[..1] == "p";
    }
    FinishedIgnoresRest("p)", "q");
    assert "p)" + "q" == "p)q";
  }

  /** An unclosed bracket keeps its contents. */
  lemma UnclosedExample()
    ensures Hierarchy("(p") == Tree([Sub(Tree([Char('p')]))])
  {
    var p := Char('p');
    assert Run("(") == Building([[], []]) by {
      assert "("[..0] == "";
    }
    var f: seq<seq<Item>> := [[], []];
    assert Run("(p") == Building([[], [p]]) by {
      assert "(p"[..1] == "(";
      assert f[..1] == [[]] && f[1] + [p] == [p];
      assert f[..1] + [f[1] + [p]] == [[], [p]];
    }
    assert [[], [p]][1..] == [[p]];
  }
}
