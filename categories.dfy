/**
  The category breadcrumb: one link per category of an entry, each
  filtering the home page by the path of category names from the root
  down to it, with an optional `/` between neighbours.
 */
module Categories {
  import opened Text

  datatype Category = Category(name: string)

  /** One rendered item: the badge's name, the link's target and whether a `/` precedes it. */
  datatype CategoryLink = CategoryLink(name: string, target: string, separated: bool)

  function Names(categories: seq<Category>): (names: seq<string>)
    ensures |names| == |categories|
    ensures forall i :: 0 <= i < |categories| ==> names[i] == categories[i].name
  {
    seq(|categories|, i requires 0 <= i < |categories| => categories[i].name)
  }

  /** The filter of item `i`: the names of the categories up to and including it, joined with `,`. */
  function HierarchicalFilter(categories: seq<Category>, i: nat): string
    requires i < |categories|
  {
    Join(Names(categories[..i + 1]), ",")
  }

  /** The link's target: the home page filtered by the category path. */
  function Target(filter: string): string {
    "/?category=" + filter
  }

  /**
    The breadcrumb: nothing at all for absent or empty categories;
    otherwise one item per category, in order, each filtering by its path
    (see FilterFirst, FilterNext and FilterLast), with a `/` before every
    item but the first, and only when separators are asked for.
   */
  function CategoryList(categories: Option<seq<Category>>, separator: bool): (r: Option<seq<CategoryLink>>)
    ensures r.None? <==> categories.None? || categories.value == []
    ensures r.Some? ==>
      && |r.value| == |categories.value|
      && forall i :: 0 <= i < |r.value| ==> r.value[i].name == categories.value[i].name
    ensures r.Some? ==> forall i :: 0 <= i < |r.value| ==> (r.value[i].separated <==> separator && i > 0)
    ensures r.Some? ==> forall i :: 0 <= i < |r.value| ==> r.value[i].target == Target(HierarchicalFilter(categories.value, i))
  {
    if categories.None? || categories.value == [] then None
    else
      var cs := categories.value;
      Some(seq(|cs|, i requires 0 <= i < |cs| => CategoryLink(cs[i].name, Target(HierarchicalFilter(cs, i)), separator && i > 0)))
  }

  /** The root category filters by its own name. */
  lemma FilterFirst(categories: seq<Category>)
    requires categories != []
    ensures HierarchicalFilter(categories, 0) == categories[0].name
  {
    assert Names(categories[..1]) == [categories[0].name];
  }

  /** Each level's filter is its parent's, then `,` and its own name. */
  lemma FilterNext(categories: seq<Category>, i: nat)
    requires i + 1 < |categories|
    ensures HierarchicalFilter(categories, i + 1) == HierarchicalFilter(categories, i) + "," + categories[i + 1].name
  {
    var a := Names(categories[..i + 1]);
    assert Names(categories[..i + 2]) == a + [categories[i + 1].name];
    JoinSnoc(a, categories[i + 1].name, ",");
  }

  /** The deepest category filters by the whole path. */
  lemma FilterLast(categories: seq<Category>)
    requires categories != []
    ensures HierarchicalFilter(categories, |categories| - 1) == Join(Names(categories), ",")
  {
    assert categories[..|categories|] == categories;
  }

  /** A parent's filter is a prefix of every descendant's. */
  lemma {:induction false} FilterPrefix(categories: seq<Category>, i: nat, j: nat)
    requires i <= j < |categories|
    ensures HierarchicalFilter(categories, i) <= HierarchicalFilter(categories, j)
    decreases j - i
  {
    if i < j {
      FilterPrefix(categories, i, j - 1);
      FilterNext(categories, j - 1);
    }
  }
}
