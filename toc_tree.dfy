/**
  The table of contents as a forest, and `nestHeadings`, which builds that
  forest from the flat list of headings with a stack.

  A heading of the flat list is `Heading(level, text, slug)`; a node of the
  forest pairs a heading with its children. The source keeps both in one
  record type whose `children` array it fills in place.
 */
module TocTree {

  datatype Heading = Heading(level: int, text: string, slug: string)

  datatype TocItem = TocItem(heading: Heading, children: seq<TocItem>)

  function Leaf(h: Heading): TocItem {
    TocItem(h, [])
  }

  /** The pre-order traversal of a forest. */
  function Flatten(f: seq<TocItem>): seq<Heading>
    decreases f
  {
    if f == [] then [] else [f[0].heading] + Flatten(f[0].children) + Flatten(f[1..])
  }

  /** Every heading of `hs` lies deeper than `level`. */
  predicate Deeper(hs: seq<Heading>, level: int) {
    forall i :: 0 <= i < |hs| ==> hs[i].level > level
  }

  /**
    The shape `nestHeadings` produces: siblings never rise in level from
    one to the next, every descendant of a node lies deeper than the node,
    and the same holds of every node's children.
   */
  predicate Nested(f: seq<TocItem>)
    decreases f, 1
  {
    (forall i, j :: 0 <= i < j < |f| ==> f[j].heading.level <= f[i].heading.level)
    && (forall i :: 0 <= i < |f| ==> NodeOk(f[i]))
  }

  predicate NodeOk(x: TocItem)
    decreases x, 0
  {
    Deeper(Flatten(x.children), x.heading.level) && Nested(x.children)
  }

  /**
    The parent of heading `k` as `nestHeadings` decides it: the nearest
    earlier heading of a strictly smaller level, or -1 for a root.
   */
  function ParentOf(hs: seq<Heading>, k: nat): (p: int)
    requires k < |hs|
    ensures -1 <= p < k
    ensures p >= 0 ==> hs[p].level < hs[k].level
    ensures forall i :: p < i < k ==> hs[i].level >= hs[k].level
  {
    ParentBelow(hs, k, k)
  }

  /** The last index below `i` whose heading is shallower than heading `k`, or -1. */
  function ParentBelow(hs: seq<Heading>, k: nat, i: nat): (p: int)
    requires i <= k < |hs|
    ensures -1 <= p < i
    ensures p >= 0 ==> hs[p].level < hs[k].level
    ensures forall m :: p < m < i ==> hs[m].level >= hs[k].level
    decreases i
  {
    if i == 0 then -1
    else if hs[i - 1].level < hs[k].level then i - 1
    else ParentBelow(hs, k, i - 1)
  }

  /** Two neighbouring headings of the same level are siblings. */
  lemma SameLevelSiblings(hs: seq<Heading>, k: nat)
    requires k + 1 < |hs| && hs[k].level == hs[k + 1].level
    ensures ParentOf(hs, k + 1) == ParentOf(hs, k)
  {
  }

  /** The end of the subtree of a heading of level `level` whose descendants start at `i`. */
  function SubtreeEnd(hs: seq<Heading>, i: nat, level: int): (k: nat)
    requires i <= |hs|
    ensures i <= k <= |hs|
    ensures Deeper(hs[i..k], level)
    ensures k < |hs| ==> hs[k].level <= level
    decreases |hs| - i
  {
    if i == |hs| || hs[i].level <= level then i else SubtreeEnd(hs, i + 1, level)
  }

  /**
    The forest of a flat list by recursive descent: the first heading takes
    the run of deeper headings after it as its subtree, and the rest of the
    list forms the following siblings.
   */
  function Nest(hs: seq<Heading>): (f: seq<TocItem>)
    ensures Flatten(f) == hs
    ensures Nested(f)
    decreases |hs|
  {
    if hs == [] then []
    else
      var k := SubtreeEnd(hs, 1, hs[0].level);
      var x := TocItem(hs[0], Nest(hs[1..k]));
      var rest := Nest(hs[k..]);
      assert hs == [hs[0]] + hs[1..k] + hs[k..];
      NestedCons(x, rest);
      [x] + rest
  }

  lemma NestedCons(x: TocItem, rest: seq<TocItem>)
    requires NodeOk(x) && Nested(rest)
    requires rest != [] ==> rest[0].heading.level <= x.heading.level
    ensures Nested([x] + rest)
    ensures Flatten([x] + rest) == [x.heading] + Flatten(x.children) + Flatten(rest)
  {
    var f := [x] + rest;
    assert f[1..] == rest;
    forall i, j | 0 <= i < j < |f|
      ensures f[j].heading.level <= f[i].heading.level
    {
      if i > 0 {
        assert f[i] == rest[i - 1] && f[j] == rest[j - 1];
      }
    }
  }

  lemma {:induction false} FlattenConcat(a: seq<TocItem>, b: seq<TocItem>)
    ensures Flatten(a + b) == Flatten(a) + Flatten(b)
    decreases |a|
  {
    if a == [] {
      assert a + b == b;
    } else {
      assert (a + b)[0] == a[0];
      assert (a + b)[1..] == a[1..] + b;
      FlattenConcat(a[1..], b);
    }
  }

  lemma NestedTail(f: seq<TocItem>)
    requires Nested(f) && f != []
    ensures Nested(f[1..])
  {
    var t := f[1..];
    assert forall i :: 0 <= i < |t| ==> t[i] == f[i + 1];
  }

  /**
    A nested forest is determined by its pre-order traversal: two nested
    forests that flatten to the same list are equal.
   */
  lemma {:induction false} NestedUnique(f: seq<TocItem>, g: seq<TocItem>)
    requires Nested(f) && Nested(g) && Flatten(f) == Flatten(g)
    ensures f == g
    decreases |Flatten(f)|
  {
    if f == [] || g == [] {
      assert f == [] && g == [];
    } else {
      FirstSubtreeAgrees(f, g);
      NestedUnique(f[0].children, g[0].children);
      NestedTail(f);
      NestedTail(g);
      NestedUnique(f[1..], g[1..]);
      assert f == [f[0]] + f[1..] && g == [g[0]] + g[1..];
    }
  }

  /** Two nested forests with the same traversal agree on their first root and how far its subtree reaches. */
  lemma FirstSubtreeAgrees(f: seq<TocItem>, g: seq<TocItem>)
    requires Nested(f) && Nested(g) && Flatten(f) == Flatten(g) && f != [] && g != []
    ensures f[0].heading == g[0].heading
    ensures Flatten(f[0].children) == Flatten(g[0].children) && Flatten(f[1..]) == Flatten(g[1..])
    ensures |Flatten(f[0].children)| < |Flatten(f)| && |Flatten(f[1..])| < |Flatten(f)|
  {
    var h := f[0].heading;
    var fc, gc := Flatten(f[0].children), Flatten(g[0].children);
    var ft, gt := Flatten(f[1..]), Flatten(g[1..]);
    var hs := Flatten(f);
    assert hs == [h] + fc + ft;
    assert hs == [g[0].heading] + gc + gt;
    assert NodeOk(f[0]) && NodeOk(g[0]);
    assert f[1..] != [] ==> f[1..][0] == f[1];
    assert g[1..] != [] ==> g[1..][0] == g[1];
    SubtreeLength(hs, h.level, fc, ft, f[1..]);
    SubtreeLength(hs, h.level, gc, gt, g[1..]);
    assert fc == hs[1..1 + |fc|] && gc == hs[1..1 + |gc|];
    assert ft == hs[1 + |fc|..] && gt == hs[1 + |gc|..];
  }

  /** Where the first subtree of a nested forest ends within its traversal. */
  lemma SubtreeLength(hs: seq<Heading>, level: int, c: seq<Heading>, t: seq<Heading>, tail: seq<TocItem>)
    requires |hs| > 0 && hs == [hs[0]] + c + t && Deeper(c, level)
    requires t == Flatten(tail) && (tail != [] ==> tail[0].heading.level <= level)
    ensures |c| == SubtreeEnd(hs, 1, level) - 1
  {
    assert hs[1..1 + |c|] == c;
    assert 1 + |c| < |hs| ==> hs[1 + |c|] == t[0] && tail != [];
    SubtreeEndIs(hs, 1, level, 1 + |c|);
  }

  lemma {:induction false} SubtreeEndIs(hs: seq<Heading>, i: nat, level: int, k: nat)
    requires i <= k <= |hs| && Deeper(hs[i..k], level) && (k < |hs| ==> hs[k].level <= level)
    ensures SubtreeEnd(hs, i, level) == k
    decreases k - i
  {
    if i < k {
      assert hs[i..k][0] == hs[i];
      assert hs[i + 1..k] == hs[i..k][1..];
      SubtreeEndIs(hs, i + 1, level, k);
    }
  }

  /** The headings along the last branch of a forest, from its last root down. */
  function Spine(f: seq<TocItem>): seq<Heading>
    decreases f
  {
    if f == [] then [] else [f[|f| - 1].heading] + Spine(f[|f| - 1].children)
  }

  /**
    Adds `x` as the last child of the node at depth `d - 1` on the last
    branch, or as the last root when `d` is 0: the effect of pushing onto
    the children of the node the stack holds at that depth.
   */
  function AttachAt(f: seq<TocItem>, d: nat, x: TocItem): (g: seq<TocItem>)
    requires d <= |Spine(f)|
    ensures |g| == if d == 0 then |f| + 1 else |f|
    decreases d
  {
    if d == 0 then f + [x]
    else
      var last := f[|f| - 1];
      f[..|f| - 1] + [TocItem(last.heading, AttachAt(last.children, d - 1, x))]
  }

  lemma {:induction false} AttachFlatten(f: seq<TocItem>, d: nat, h: Heading)
    requires d <= |Spine(f)|
    ensures Flatten(AttachAt(f, d, Leaf(h))) == Flatten(f) + [h]
    decreases d
  {
    if d == 0 {
      FlattenConcat(f, [Leaf(h)]);
    } else {
      var last := f[|f| - 1];
      var init := f[..|f| - 1];
      assert f == init + [last];
      AttachFlatten(last.children, d - 1, h);
      FlattenConcat(init, [last]);
      FlattenConcat(init, [TocItem(last.heading, AttachAt(last.children, d - 1, Leaf(h)))]);
    }
  }

  lemma {:induction false} AttachSpine(f: seq<TocItem>, d: nat, h: Heading)
    requires d <= |Spine(f)|
    ensures Spine(AttachAt(f, d, Leaf(h))) == Spine(f)[..d] + [h]
    decreases d
  {
    if d > 0 {
      AttachSpine(f[|f| - 1].children, d - 1, h);
    }
  }

  /** Along the last branch of a nested forest the levels strictly increase. */
  lemma {:induction false} SpineRises(f: seq<TocItem>)
    requires Nested(f)
    ensures forall t :: 0 <= t < |Spine(f)| - 1 ==> Spine(f)[t].level < Spine(f)[t + 1].level
    decreases f
  {
    if f != [] {
      var last := f[|f| - 1];
      SpineRises(last.children);
      if last.children != [] {
        SpineInFlatten(last.children);
        assert Spine(f)[1] == Spine(last.children)[0];
      }
    }
  }

  /** The first heading of the last branch occurs in the traversal. */
  lemma SpineInFlatten(f: seq<TocItem>)
    requires f != []
    ensures Spine(f)[0] in Flatten(f)
  {
    var init := f[..|f| - 1];
    assert f == init + [f[|f| - 1]];
    FlattenConcat(init, [f[|f| - 1]]);
  }

  /**
    Attaching a leaf below the first `d` nodes of the last branch keeps the
    forest nested when those nodes are shallower than the leaf and the node
    it follows at its own depth is not.
   */
  lemma {:induction false} AttachNested(f: seq<TocItem>, d: nat, h: Heading)
    requires Nested(f) && d <= |Spine(f)|
    requires forall t :: 0 <= t < d ==> Spine(f)[t].level < h.level
    requires d < |Spine(f)| ==> Spine(f)[d].level >= h.level
    ensures Nested(AttachAt(f, d, Leaf(h)))
    decreases d
  {
    if d == 0 {
      NestedSnoc(f, Leaf(h));
    } else {
      var last := f[|f| - 1];
      assert NodeOk(last);
      assert Spine(f) == [last.heading] + Spine(last.children);
      assert Spine(f)[1..] == Spine(last.children);
      AttachNested(last.children, d - 1, h);
      AttachFlatten(last.children, d - 1, h);
      var y := TocItem(last.heading, AttachAt(last.children, d - 1, Leaf(h)));
      assert NodeOk(y) by {
        assert Spine(f)[0] == last.heading;
        DeeperSnoc(Flatten(last.children), h, last.heading.level);
      }
      NestedReplaceLast(f, y);
    }
  }

  lemma DeeperSnoc(hs: seq<Heading>, h: Heading, level: int)
    requires Deeper(hs, level) && h.level > level
    ensures Deeper(hs + [h], level)
  {
  }

  lemma NestedSnoc(f: seq<TocItem>, x: TocItem)
    requires Nested(f) && NodeOk(x)
    requires f != [] ==> x.heading.level <= f[|f| - 1].heading.level
    ensures Nested(f + [x])
  {
    SortedSnoc(f, x);
    NodesSnoc(f, x);
  }

  lemma SortedSnoc(f: seq<TocItem>, x: TocItem)
    requires forall i, j :: 0 <= i < j < |f| ==> f[j].heading.level <= f[i].heading.level
    requires f != [] ==> x.heading.level <= f[|f| - 1].heading.level
    ensures var g := f + [x]; forall i, j :: 0 <= i < j < |g| ==> g[j].heading.level <= g[i].heading.level
  {
    var g := f + [x];
    forall i, j | 0 <= i < j < |g| ensures g[j].heading.level <= g[i].heading.level {
      assert g[i] == f[i];
      if j < |f| {
        assert g[j] == f[j];
      } else {
        assert f[|f| - 1].heading.level <= f[i].heading.level;
      }
    }
  }

  lemma NodesSnoc(f: seq<TocItem>, x: TocItem)
    requires forall i :: 0 <= i < |f| ==> NodeOk(f[i])
    requires NodeOk(x)
    ensures var g := f + [x]; forall i :: 0 <= i < |g| ==> NodeOk(g[i])
  {
  }

  lemma NestedReplaceLast(f: seq<TocItem>, y: TocItem)
    requires Nested(f) && f != [] && y.heading == f[|f| - 1].heading && NodeOk(y)
    ensures Nested(f[..|f| - 1] + [y])
  {
    var g := f[..|f| - 1] + [y];
    forall i, j | 0 <= i < j < |g| ensures g[j].heading.level <= g[i].heading.level {
      assert g[i] == f[i];
      if j < |f| - 1 {
        assert g[j] == f[j];
      } else {
        assert g[j] == y;
      }
      assert f[j].heading.level <= f[i].heading.level;
    }
    forall i | 0 <= i < |g| ensures NodeOk(g[i]) {
      if i < |f| - 1 {
        assert g[i] == f[i];
      }
    }
  }

  /** A heading that follows index `i` in a forest's traversal still open at `j`: nothing between is as shallow. */
  predicate OnSpine(hs: seq<Heading>, i: nat, j: nat)
    requires i < j <= |hs|
  {
    forall m :: i < m < j ==> hs[m].level > hs[i].level
  }

  /** Every earlier heading is covered by an open one at most as deep. */
  lemma {:induction false} Dominated(hs: seq<Heading>, i: nat, j: nat) returns (s: nat)
    requires i < j <= |hs|
    ensures i <= s < j && OnSpine(hs, s, j) && hs[s].level <= hs[i].level
    decreases j - i
  {
    if OnSpine(hs, i, j) {
      s := i;
    } else {
      var m :| i < m < j && hs[m].level <= hs[i].level;
      s := Dominated(hs, m, j);
    }
  }

  /**
    What holds after the first `j` headings: the forest flattens to them and
    is nested, the stack lists the indices of the nodes on its last branch
    (the headings no later heading has closed yet), and each heading's
    recorded parent is the one `ParentOf` names.
   */
  predicate NestInvariant(hs: seq<Heading>, j: nat, root: seq<TocItem>, stack: seq<nat>, parents: seq<int>)
    requires j <= |hs|
  {
    Flatten(root) == hs[..j]
    && Nested(root)
    && |stack| == |Spine(root)|
    && (forall t :: 0 <= t < |stack| ==> stack[t] < j && hs[stack[t]] == Spine(root)[t])
    && (forall t, u :: 0 <= t < u < |stack| ==> stack[t] < stack[u])
    && (forall i :: 0 <= i < j ==> (i in stack <==> OnSpine(hs, i, j)))
    && |parents| == j
    && (forall k :: 0 <= k < j ==> parents[k] == ParentOf(hs, k))
  }

  /**
    `nestHeadings`: the stack holds the indices of the open headings, which
    are the nodes along the last branch of the forest built so far. Each
    heading first closes the open headings at least as deep as itself, then
    becomes a root or the last child of the heading left on top, and is
    then opened itself. `parents` records, for each heading, the index of
    the heading it was attached to, or -1 for a root.
   */
  method NestHeadings(headings: seq<Heading>) returns (root: seq<TocItem>, parents: seq<int>)
    ensures Flatten(root) == headings
    ensures Nested(root)
    ensures root == Nest(headings)
    ensures |parents| == |headings|
    ensures forall k :: 0 <= k < |headings| ==> parents[k] == ParentOf(headings, k)
  {
    root := [];
    parents := [];
    var stack: seq<nat> := [];
    for j := 0 to |headings|
      invariant NestInvariant(headings, j, root, stack, parents)
    {
      var h := headings[j];
      ghost var open := stack;
      stack := CloseDeeper(headings, stack, h.level);
      var d := |stack|;
      var p: int := if d == 0 then -1 else stack[d - 1];
      NestStep(headings, j, root, open, parents, d);
      ghost var before := root;
      if d == 0 {
        root := root + [Leaf(h)];
      } else {
        root := AttachAt(root, d, Leaf(h));
      }
      assert root == AttachAt(before, d, Leaf(h));
      assert stack == open[..d];
      parents := parents + [p];
      stack := stack + [j];
    }
    assert headings[..|headings|] == headings;
    NestedUnique(root, Nest(headings));
  }

  /**
    The inner loop of `nestHeadings`: pops the open headings whose level is
    at least `level`, leaving the longest prefix of the stack whose top is
    shallower.
   */
  method CloseDeeper(hs: seq<Heading>, stack: seq<nat>, level: int) returns (kept: seq<nat>)
    requires forall t :: 0 <= t < |stack| ==> stack[t] < |hs|
    ensures kept <= stack
    ensures forall t :: |kept| <= t < |stack| ==> hs[stack[t]].level >= level
    ensures kept != [] ==> hs[kept[|kept| - 1]].level < level
  {
    kept := stack;
    while |kept| > 0 && hs[kept[|kept| - 1]].level >= level
      invariant kept <= stack
      invariant forall t :: |kept| <= t < |stack| ==> hs[stack[t]].level >= level
    {
      kept := kept[..|kept| - 1];
    }
  }

  /** One turn of the loop of `NestHeadings` keeps its invariant. */
  lemma NestStep(hs: seq<Heading>, j: nat, root: seq<TocItem>, open: seq<nat>, parents: seq<int>, d: nat)
    requires j < |hs| && NestInvariant(hs, j, root, open, parents)
    requires d <= |open|
    requires forall t :: d <= t < |open| ==> hs[open[t]].level >= hs[j].level
    requires d > 0 ==> hs[open[d - 1]].level < hs[j].level
    ensures d <= |Spine(root)|
    ensures NestInvariant(hs, j + 1, AttachAt(root, d, Leaf(hs[j])), open[..d] + [j],
      parents + [if d == 0 then -1 else open[d - 1]])
  {
    var p: int := if d == 0 then -1 else open[d - 1];
    var r := AttachAt(root, d, Leaf(hs[j]));
    var ns := open[..d] + [j];
    NestStepTree(hs, j, root, open, d);
    ParentIsTop(hs, j, open, d, p);
    SpineStep(hs, j, open, d);
    StackStep(hs, j, root, r, open, d);
    ParentsStep(hs, j, parents, p);
  }

  lemma ParentsStep(hs: seq<Heading>, j: nat, parents: seq<int>, p: int)
    requires j < |hs| && |parents| == j && p == ParentOf(hs, j)
    requires forall k :: 0 <= k < j ==> parents[k] == ParentOf(hs, k)
    ensures forall k :: 0 <= k < j + 1 ==> (parents + [p])[k] == ParentOf(hs, k)
  {
  }

  /** The stack after a turn lists the new last branch, in increasing order of index. */
  lemma StackStep(hs: seq<Heading>, j: nat, root: seq<TocItem>, r: seq<TocItem>, open: seq<nat>, d: nat)
    requires j < |hs| && d <= |open| && |open| == |Spine(root)|
    requires forall t :: 0 <= t < |open| ==> open[t] < j && hs[open[t]] == Spine(root)[t]
    requires forall t, u :: 0 <= t < u < |open| ==> open[t] < open[u]
    requires Spine(r) == Spine(root)[..d] + [hs[j]]
    ensures var ns := open[..d] + [j];
      |ns| == |Spine(r)|
      && (forall t :: 0 <= t < |ns| ==> ns[t] < j + 1 && hs[ns[t]] == Spine(r)[t])
      && (forall t, u :: 0 <= t < u < |ns| ==> ns[t] < ns[u])
  {
  }

  /** The forest side of one turn: attaching heading `j` below the open headings left. */
  lemma NestStepTree(hs: seq<Heading>, j: nat, root: seq<TocItem>, open: seq<nat>, d: nat)
    requires j < |hs| && Flatten(root) == hs[..j] && Nested(root) && |open| == |Spine(root)|
    requires forall t :: 0 <= t < |open| ==> open[t] < j && hs[open[t]] == Spine(root)[t]
    requires d <= |open|
    requires forall t :: d <= t < |open| ==> hs[open[t]].level >= hs[j].level
    requires d > 0 ==> hs[open[d - 1]].level < hs[j].level
    ensures d <= |Spine(root)|
    ensures forall t :: 0 <= t < d ==> hs[open[t]].level < hs[j].level
    ensures var r := AttachAt(root, d, Leaf(hs[j]));
      Flatten(r) == hs[..j + 1] && Nested(r) && Spine(r) == Spine(root)[..d] + [hs[j]]
  {
    var h := hs[j];
    var sp := Spine(root);
    if d > 0 {
      assert sp[d - 1] == hs[open[d - 1]];
    }
    if d < |sp| {
      assert sp[d] == hs[open[d]];
    }
    OpenBelow(root, d, h);
    forall t | 0 <= t < d ensures hs[open[t]].level < h.level {
      assert sp[t] == hs[open[t]];
    }
    AttachLeaf(root, d, h);
    assert hs[..j + 1] == hs[..j] + [h];
  }

  /** The open headings kept on the stack are all shallower than the incoming one. */
  lemma OpenBelow(root: seq<TocItem>, d: nat, h: Heading)
    requires Nested(root) && d <= |Spine(root)|
    requires d > 0 ==> Spine(root)[d - 1].level < h.level
    ensures forall t :: 0 <= t < d ==> Spine(root)[t].level < h.level
  {
    SpineRises(root);
    forall t | 0 <= t < d ensures Spine(root)[t].level < h.level {
      RiseUpTo(Spine(root), t, d - 1);
    }
  }

  lemma AttachLeaf(root: seq<TocItem>, d: nat, h: Heading)
    requires Nested(root) && d <= |Spine(root)|
    requires forall t :: 0 <= t < d ==> Spine(root)[t].level < h.level
    requires d < |Spine(root)| ==> Spine(root)[d].level >= h.level
    ensures var r := AttachAt(root, d, Leaf(h));
      Flatten(r) == Flatten(root) + [h] && Nested(r) && Spine(r) == Spine(root)[..d] + [h]
  {
    AttachNested(root, d, h);
    AttachFlatten(root, d, h);
    AttachSpine(root, d, h);
  }

  lemma {:induction false} RiseUpTo(sp: seq<Heading>, t: nat, u: nat)
    requires t <= u < |sp|
    requires forall m :: 0 <= m < |sp| - 1 ==> sp[m].level < sp[m + 1].level
    ensures sp[t].level <= sp[u].level
    decreases u - t
  {
    if t < u {
      RiseUpTo(sp, t, u - 1);
    }
  }

  /** After the closing loop the heading left on top is the parent `ParentOf` names. */
  lemma ParentIsTop(hs: seq<Heading>, j: nat, open: seq<nat>, d: nat, p: int)
    requires j < |hs| && d <= |open|
    requires forall t :: 0 <= t < |open| ==> open[t] < j
    requires forall t, u :: 0 <= t < u < |open| ==> open[t] < open[u]
    requires forall i :: 0 <= i < j ==> (i in open <==> OnSpine(hs, i, j))
    requires forall t :: d <= t < |open| ==> hs[open[t]].level >= hs[j].level
    requires d > 0 ==> hs[open[d - 1]].level < hs[j].level
    requires p == if d == 0 then -1 else open[d - 1]
    ensures p == ParentOf(hs, j)
  {
    var q := ParentOf(hs, j);
    forall i | p < i < j ensures hs[i].level >= hs[j].level {
      var s := Dominated(hs, i, j);
      assert s in open;
      var t :| 0 <= t < |open| && open[t] == s;
      assert t >= d;
    }
  }

  /** The open headings after heading `j` is opened. */
  lemma SpineStep(hs: seq<Heading>, j: nat, open: seq<nat>, d: nat)
    requires j < |hs| && d <= |open|
    requires forall t :: 0 <= t < |open| ==> open[t] < j
    requires forall t, u :: 0 <= t < u < |open| ==> open[t] < open[u]
    requires forall i :: 0 <= i < j ==> (i in open <==> OnSpine(hs, i, j))
    requires forall t :: d <= t < |open| ==> hs[open[t]].level >= hs[j].level
    requires forall t :: 0 <= t < d ==> hs[open[t]].level < hs[j].level
    ensures forall i :: 0 <= i < j + 1 ==> (i in open[..d] + [j] <==> OnSpine(hs, i, j + 1))
  {
    var ns := open[..d] + [j];
    forall i | 0 <= i < j + 1 ensures i in ns <==> OnSpine(hs, i, j + 1) {
      if i < j {
        if i in ns {
          var t :| 0 <= t < d && open[t] == i;
          assert i in open;
        }
        if OnSpine(hs, i, j + 1) {
          assert OnSpine(hs, i, j);
          var t :| 0 <= t < |open| && open[t] == i;
          assert t < d;
          assert ns[t] == i;
        }
      }
    }
  }
}
