/**
  `renderTocMarkdown` / `generateToc`: a forest of TOC entries as nested
  `<li>` items, each holding a link to its heading's slug and, when it has
  children, a `<ul>` of their items.
 */
module TocRender {
  import opened Text
  import opened TocTree

  /** The opening of one entry: the list item and the link to the heading's anchor. */
  function Anchor(h: Heading): string {
    "<li><a href=\"#" + h.slug + "\">" + h.text + "</a>"
  }

  /** The HTML of a forest: the items of its entries, built from the last entry backwards. */
  function Render(f: seq<TocItem>): (html: string)
    ensures f == [] <==> html == []
    decreases f, 1
  {
    if f == [] then "" else Render(f[..|f| - 1]) + Item(f[|f| - 1])
  }

  /** One entry: its anchor, then `\n<ul>\n`, its children and `</ul>` when it has children, then `</li>\n`. */
  function Item(x: TocItem): (html: string)
    ensures Anchor(x.heading) <= html
    ensures |html| >= |Anchor(x.heading)| + 6 && html[|html| - 6..] == "</li>\n"
    ensures x.children == [] <==> |html| == |Anchor(x.heading)| + 6
    decreases x, 0
  {
    Anchor(x.heading)
    + (if x.children != [] then "\n<ul>\n" + Render(x.children) + "</ul>" else "")
    + "</li>\n"
  }

  /** Siblings render in order: the HTML of two forests side by side is the two HTMLs side by side. */
  lemma {:induction false} RenderConcat(a: seq<TocItem>, b: seq<TocItem>)
    ensures Render(a + b) == Render(a) + Render(b)
    decreases |b|
  {
    if b == [] {
      assert a + b == a;
    } else {
      var c := a + b;
      var init := b[..|b| - 1];
      var last := b[|b| - 1];
      assert c[..|c| - 1] == a + init && c[|c| - 1] == last;
      assert Render(c) == Render(a + init) + Item(last);
      RenderConcat(a, init);
      assert Render(b) == Render(init) + Item(last);
      ConcatAssoc(Render(a), Render(init), Item(last));
    }
  }

  lemma RenderOne(x: TocItem)
    ensures Render([x]) == Item(x)
  {
    assert [x][..0] == [];
  }

  /** The forest read from the front: the first entry's item, then the rest. */
  lemma RenderCons(f: seq<TocItem>)
    requires f != []
    ensures Render(f) == Item(f[0]) + Render(f[1..])
  {
    RenderConcat([f[0]], f[1..]);
    RenderOne(f[0]);
    assert [f[0]] + f[1..] == f;
  }

  /** Every heading of the forest, at any depth, has its link in the HTML. */
  lemma {:induction false} RenderLinks(f: seq<TocItem>, i: nat)
    requires i < |Flatten(f)|
    ensures Infix(Render(f), Anchor(Flatten(f)[i]))
    decreases f
  {
    var x := f[0];
    var inner := Flatten(x.children);
    var w := Anchor(Flatten(f)[i]);
    RenderCons(f);
    assert Flatten(f) == [x.heading] + inner + Flatten(f[1..]);
    if i <= |inner| {
      ItemLinks(x, i);
      InfixLeft(Item(x), Render(f[1..]), w);
    } else {
      assert Flatten(f)[i] == Flatten(f[1..])[i - 1 - |inner|];
      RenderLinks(f[1..], i - 1 - |inner|);
      InfixRight(Item(x), Render(f[1..]), w);
    }
  }

  /** The entry's own heading (index 0) and its descendants have their links in its item. */
  lemma {:induction false} ItemLinks(x: TocItem, i: nat)
    requires i <= |Flatten(x.children)|
    ensures Infix(Item(x), Anchor(([x.heading] + Flatten(x.children))[i]))
    decreases x
  {
    var hs := [x.heading] + Flatten(x.children);
    var w := Anchor(hs[i]);
    var mid := if x.children != [] then "\n<ul>\n" + Render(x.children) + "</ul>" else "";
    assert Item(x) == Anchor(x.heading) + mid + "</li>\n";
    if i == 0 {
      assert OccursAt(Anchor(x.heading), w, 0);
      InfixLeft(Anchor(x.heading), mid, w);
      InfixLeft(Anchor(x.heading) + mid, "</li>\n", w);
    } else {
      assert hs[i] == Flatten(x.children)[i - 1];
      RenderLinks(x.children, i - 1);
      InfixMiddle("\n<ul>\n", Render(x.children), "</ul>", w);
      InfixMiddle(Anchor(x.heading), mid, "</li>\n", w);
    }
  }

  /**
    `renderTocMarkdown`: an empty forest gives the empty string; otherwise
    a loop appends each entry's item, rendering the children with a
    recursive call.
   */
  method RenderToc(headings: seq<TocItem>) returns (html: string)
    ensures html == Render(headings)
    decreases headings
  {
    if |headings| == 0 {
      return "";
    }
    html := "";
    for i := 0 to |headings|
      invariant html == Render(headings[..i])
    {
      ghost var before := html;
      var heading := headings[i];
      html := html + "<li><a href=\"#" + heading.heading.slug + "\">" + heading.heading.text + "</a>";
      assert html == before + Anchor(heading.heading);
      ghost var mid := "";
      if |heading.children| > 0 {
        var inner := RenderToc(heading.children);
        html := html + "\n<ul>\n" + inner + "</ul>";
        mid := "\n<ul>\n" + inner + "</ul>";
      }
      assert html == (before + Anchor(heading.heading)) + mid;
      html := html + "</li>\n";
      AppendItem(before, heading, mid);
      assert headings[..i + 1][..i] == headings[..i];
    }
    assert headings[..|headings|] == headings;
  }

  lemma AppendItem(before: string, x: TocItem, mid: string)
    requires mid == if x.children != [] then "\n<ul>\n" + Render(x.children) + "</ul>" else ""
    ensures before + Anchor(x.heading) + mid + "</li>\n" == before + Item(x)
  {
    var a := Anchor(x.heading);
    assert Item(x) == a + mid + "</li>\n";
    ConcatAssoc(before, a, mid);
    ConcatAssoc(before, a + mid, "</li>\n");
  }

  /** `generateToc`. */
  method GenerateToc(headings: seq<TocItem>) returns (html: string)
    ensures html == Render(headings)
    ensures headings == [] <==> html == []
  {
    html := RenderToc(headings);
  }
}
