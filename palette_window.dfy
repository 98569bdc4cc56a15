/**
 * The palette window (PaletteWindow.cs, PaletteItem.cs): the category tabs,
 * the palette items grouped by category, and the cache of item previews.
 *
 * Loading the items from the asset folder and generating a preview are
 * engine services; the window receives their results as parameters.
 */
module Palette {
  import opened Wrappers

  /** The palette item categories, in declaration order. */
  datatype Category = Misc | Colectables | Enemies | Blocks

  /** Every category, in declaration order (the enum's value list). */
  const AllCategories: seq<Category> := [Misc, Colectables, Enemies, Blocks]

  /** The enum value's integer: its position in declaration order. */
  function Ordinal(c: Category): (i: nat)
    ensures i < |AllCategories| && AllCategories[i] == c
  {
    match c
    case Misc => 0
    case Colectables => 1
    case Enemies => 2
    case Blocks => 3
  }

  /** The category's name (Category.ToString()). */
  function CategoryName(c: Category): (name: string)
    ensures |name| > 0
  {
    match c
    case Misc => "Misc"
    case Colectables => "Colectables"
    case Enemies => "Enemies"
    case Blocks => "Blocks"
  }

  /** Different categories have different names, so each tab label names one category. */
  lemma CategoryNamesDistinct(c: Category, d: Category)
    requires c != d
    ensures CategoryName(c) != CategoryName(d)
  {
  }

  /** A prefab carrying the palette item component; `id` stands for its object identity. */
  datatype PaletteItem = PaletteItem(id: nat, category: Category, itemName: string)

  /** A preview image. */
  datatype Texture = Texture(id: nat)

  /** One button of the selection grid: a caption and an image. */
  datatype GUIContent = GUIContent(text: string, image: Texture)

  // ---------------------------------------------------------------------------
  // Grouping by category
  // ---------------------------------------------------------------------------

  /** The items of category `c`, in their order in `items`. */
  function ItemsIn(items: seq<PaletteItem>, c: Category): (r: seq<PaletteItem>)
    ensures |r| <= |items|
    ensures forall x :: x in r ==> x in items && x.category == c
  {
    if items == [] then []
    else
      var last := items[|items| - 1];
      ItemsIn(items[..|items| - 1], c) + (if last.category == c then [last] else [])
  }

  /** Every item of category `c` is in its group. */
  lemma {:induction false} ItemsInComplete(items: seq<PaletteItem>, c: Category)
    ensures forall x :: x in items && x.category == c ==> x in ItemsIn(items, c)
  {
    if items != [] {
      ItemsInComplete(items[..|items| - 1], c);
      forall x | x in items && x.category == c
        ensures x in ItemsIn(items, c)
      {
        if x != items[|items| - 1] {
          var i :| 0 <= i < |items| && items[i] == x;
          assert x in items[..|items| - 1];
        }
      }
    }
  }

  /** The groups together hold every item once: their sizes add up to the number of items. */
  lemma {:induction false} GroupSizesSum(items: seq<PaletteItem>)
    ensures |ItemsIn(items, Misc)| + |ItemsIn(items, Colectables)| + |ItemsIn(items, Enemies)|
            + |ItemsIn(items, Blocks)| == |items|
  {
    if items != [] {
      GroupSizesSum(items[..|items| - 1]);
    }
  }

  /** The grouped contents: one key per listed category, each with that category's items. */
  function Categorize(items: seq<PaletteItem>, categories: seq<Category>): map<Category, seq<PaletteItem>>
  {
    map c | c in categories :: ItemsIn(items, c)
  }

  // ---------------------------------------------------------------------------
  // The preview cache
  // ---------------------------------------------------------------------------

  /**
   * The cache after asking for a preview of each item not yet in it, in item
   * order, and adding the previews the generator returned.
   */
  function FilledPreviews(cache: map<PaletteItem, Texture>, items: seq<PaletteItem>,
                          previewOf: PaletteItem -> Option<Texture>): (r: map<PaletteItem, Texture>)
    ensures forall k :: k in cache ==> k in r && r[k] == cache[k]
    ensures forall k :: k in r ==> k in cache || (k in items && previewOf(k) == Some(r[k]))
    ensures forall x :: x in items && previewOf(x).Some? ==> x in r
  {
    if items == [] then cache
    else
      var before := FilledPreviews(cache, items[..|items| - 1], previewOf);
      var x := items[|items| - 1];
      assert forall y :: y in items[..|items| - 1] ==> y in items;
      assert forall y :: y in items ==> y in items[..|items| - 1] || y == x;
      if x !in before && previewOf(x).Some? then before[x := previewOf(x).value] else before
  }

  /** A sequence has at most as many distinct elements as it has elements. */
  lemma {:induction false} DistinctElementsBound<T>(s: seq<T>)
    ensures |set x | x in s| <= |s|
  {
    if s != [] {
      var init := s[..|s| - 1];
      DistinctElementsBound(init);
      assert (set x | x in s) == (set x | x in init) + {s[|s| - 1]};
    }
  }

  /** A cache whose keys are all items holds at most as many previews as there are items. */
  lemma CacheBounded(cache: map<PaletteItem, Texture>, items: seq<PaletteItem>)
    requires forall k :: k in cache ==> k in items
    ensures |cache| <= |items|
  {
    DistinctElementsBound(items);
    assert cache.Keys <= set x | x in items;
    SubsetCardinality(cache.Keys, set x | x in items);
  }

  /**
   * When the cache's keys are items and the cache is as large as the item
   * list, every item has a preview.
   */
  lemma FullCacheCoversItems(cache: map<PaletteItem, Texture>, items: seq<PaletteItem>)
    requires forall k :: k in cache ==> k in items
    requires |cache| == |items|
    ensures forall x :: x in items ==> x in cache
  {
    var all := set x | x in items;
    DistinctElementsBound(items);
    assert cache.Keys <= all;
    if exists x :: x in items && x !in cache {
      var x :| x in items && x !in cache;
      SubsetCardinality(cache.Keys, all - {x});
      assert false;
    }
  }

  /** A map holding every category's group is the grouped contents over all categories. */
  lemma GroupsAreCategorized(items: seq<PaletteItem>, groups: map<Category, seq<PaletteItem>>)
    requires forall c :: c in groups && groups[c] == ItemsIn(items, c)
    ensures groups == Categorize(items, AllCategories)
  {
    var all := Categorize(items, AllCategories);
    forall c ensures c in all {
      assert AllCategories[Ordinal(c)] == c;
    }
    assert groups.Keys == all.Keys;
  }

  /** Every category has a key in the grouped contents, holding that category's items. */
  lemma CategorizedGroup(items: seq<PaletteItem>, c: Category)
    ensures c in Categorize(items, AllCategories) && Categorize(items, AllCategories)[c] == ItemsIn(items, c)
  {
    assert AllCategories[Ordinal(c)] == c;
  }

  /** When every item is cached, so is every member of every group. */
  lemma GroupCached(items: seq<PaletteItem>, cache: map<PaletteItem, Texture>, c: Category)
    requires forall x :: x in items ==> x in cache
    ensures forall j :: 0 <= j < |ItemsIn(items, c)| ==> ItemsIn(items, c)[j] in cache
  {
    var group := ItemsIn(items, c);
    forall j | 0 <= j < |group|
      ensures group[j] in cache
    {
      assert group[j] in group;
    }
  }

  lemma SubsetCardinality<T>(a: set<T>, b: set<T>)
    requires a <= b
    ensures |a| <= |b|
  {
    assert b == a + (b - a);
  }

  // ---------------------------------------------------------------------------
  // The window
  // ---------------------------------------------------------------------------

  class PaletteWindow {
    /** The tab categories; None until initialised. */
    var categories: Option<seq<Category>>
    var categoryLabels: seq<string>
    var categorySelected: Category
    var items: seq<PaletteItem>
    /** The items grouped by category; None until initialised. */
    var categorizedItems: Option<map<Category, seq<PaletteItem>>>
    var previews: map<PaletteItem, Texture>

    /**
     * The window's invariant: the tabs are the categories in declaration
     * order, label i names category i, the groups are those of the loaded
     * items, and every cached preview belongs to a loaded item.
     */
    ghost predicate Valid()
      reads this
    {
      && (categories.Some? ==>
            && categories.value == AllCategories
            && |categoryLabels| == |categories.value|
            && forall i :: 0 <= i < |categoryLabels| ==> categoryLabels[i] == CategoryName(categories.value[i]))
      && (categorizedItems.Some? ==>
            categories.Some? && categorizedItems.value == Categorize(items, categories.value))
      && (categorizedItems.None? ==> items == [] && previews == map[])
      && (forall k :: k in previews ==> k in items)
    }

    /** A window that has not been enabled yet. */
    constructor ()
      ensures Valid()
      ensures categories == None && categorizedItems == None && categorySelected == Misc
    {
      categories := None;
      categoryLabels := [];
      categorySelected := Misc;
      items := [];
      categorizedItems := None;
      previews := map[];
    }

    /**
     * Initialises what is still missing: the categories and their labels
     * when there are none, then the contents, from the loaded items, when
     * there are none. A window that has both is left unchanged.
     */
    method OnEnable(loaded: seq<PaletteItem>)
      requires Valid()
      modifies this
      ensures Valid() && categories.Some? && categorizedItems.Some?
      ensures old(categorizedItems).None? ==>
                items == loaded && categorizedItems == Some(Categorize(loaded, AllCategories)) && previews == map[]
      ensures old(categorizedItems).Some? ==>
                categories == old(categories) && categoryLabels == old(categoryLabels)
                && items == old(items) && categorizedItems == old(categorizedItems) && previews == old(previews)
      ensures categorySelected == old(categorySelected)
    {
      if categories.None? {
        InitCategories();
      }
      if categorizedItems.None? {
        InitContent(loaded);
      }
    }

    /** The categories are the enum's values; label i is the name of category i. */
    method InitCategories()
      requires Valid() && categories.None?
      modifies this
      ensures Valid()
      ensures categories == Some(AllCategories)
      ensures |categoryLabels| == |AllCategories|
      ensures forall i :: 0 <= i < |categoryLabels| ==> categoryLabels[i] == CategoryName(AllCategories[i])
      ensures items == old(items) && categorizedItems == old(categorizedItems) && previews == old(previews)
      ensures categorySelected == old(categorySelected)
    {
      var list := AllCategories;
      var labels: seq<string> := [];
      for i := 0 to |list|
        invariant |labels| == i
        invariant forall j :: 0 <= j < i ==> labels[j] == CategoryName(list[j])
      {
        labels := labels + [CategoryName(list[i])];
      }
      categories := Some(list);
      categoryLabels := labels;
    }

    /**
     * Takes the loaded items, empties the preview cache, adds an empty group
     * for every category, then appends each item to its category's group.
     */
    method InitContent(loaded: seq<PaletteItem>)
      requires Valid() && categories.Some?
      modifies this
      ensures Valid()
      ensures items == loaded
      ensures categorizedItems == Some(Categorize(loaded, AllCategories))
      ensures previews == map[]
      ensures categories == old(categories) && categoryLabels == old(categoryLabels)
      ensures categorySelected == old(categorySelected)
    {
      var list := categories.value;
      var groups: map<Category, seq<PaletteItem>> := map[];
      for i := 0 to |list|
        invariant forall c :: c in groups <==> c in list[..i]
        invariant forall c :: c in groups ==> groups[c] == []
      {
        assert list[..i + 1] == list[..i] + [list[i]];
        groups := groups[list[i] := []];
      }
      forall c ensures c in groups && groups[c] == ItemsIn(loaded[..0], c) {
        assert list[..|list|][Ordinal(c)] == c;
      }
      for j := 0 to |loaded|
        invariant forall c :: c in groups && groups[c] == ItemsIn(loaded[..j], c)
      {
        var item := loaded[j];
        assert loaded[..j + 1][..j] == loaded[..j];
        groups := groups[item.category := groups[item.category] + [item]];
      }
      assert loaded[..|loaded|] == loaded;
      GroupsAreCategorized(loaded, groups);
      items := loaded;
      categorizedItems := Some(groups);
      previews := map[];
    }

    /** Sets the selected category to the tab the toolbar returned. */
    method DrawTabs(index: int)
      requires Valid() && categories.Some? && 0 <= index < |categories.value|
      modifies this`categorySelected
      ensures Valid()
      ensures categorySelected == categories.value[index]
      ensures categoryLabels[index] == CategoryName(categorySelected)
      ensures index == Ordinal(old(categorySelected)) ==> categorySelected == old(categorySelected)
    {
      categorySelected := categories.value[index];
    }

    /**
     * Asks for a preview of every item not yet cached and caches the ones
     * the generator returns; cached previews are never removed or replaced.
     */
    method GeneratePreviews(previewOf: PaletteItem -> Option<Texture>)
      requires Valid()
      modifies this`previews
      ensures Valid()
      ensures previews == FilledPreviews(old(previews), items, previewOf)
    {
      // The cache is filled in a local and stored once; nothing reads it in between.
      var filled := previews;
      for i := 0 to |items|
        invariant filled == FilledPreviews(previews, items[..i], previewOf)
      {
        var item := items[i];
        assert items[..i + 1][..i] == items[..i];
        if item !in filled {
          var preview := previewOf(item);
          if preview.Some? {
            filled := filled[item := preview.value];
          }
        }
      }
      assert items[..|items|] == items;
      previews := filled;
    }

    /** Fills the preview cache, unless it already holds as many previews as there are items. */
    method Update(previewOf: PaletteItem -> Option<Texture>)
      requires Valid()
      modifies this`previews
      ensures Valid()
      ensures |old(previews)| == |items| ==> previews == old(previews)
      ensures |old(previews)| != |items| ==> previews == FilledPreviews(old(previews), items, previewOf)
      ensures |previews| <= |items|
    {
      if |previews| != |items| {
        GeneratePreviews(previewOf);
      }
      CacheBounded(previews, items);
    }

    /**
     * The selection grid's buttons for the selected tab: nothing until every
     * item has a preview, then one button per item of the selected category,
     * in group order, captioned with the item's name and showing its preview.
     */
    method GetGUIContentFromItems() returns (contents: seq<GUIContent>)
      requires Valid() && categorizedItems.Some?
      ensures |previews| == |items| ==> forall x :: x in items ==> x in previews
      ensures |previews| != |items| ==> contents == []
      ensures |previews| == |items| ==>
                var group := ItemsIn(items, categorySelected);
                |contents| == |group|
                && forall i :: 0 <= i < |group| ==> contents[i] == GUIContent(group[i].itemName, previews[group[i]])
    {
      contents := [];
      if |previews| == |items| {
        FullCacheCoversItems(previews, items);
        CategorizedGroup(items, categorySelected);
        GroupCached(items, previews, categorySelected);
        var group := categorizedItems.value[categorySelected];
        var total := |group|;
        for i := 0 to total
          invariant |contents| == i
          invariant forall j :: 0 <= j < i ==> contents[j] == GUIContent(group[j].itemName, previews[group[j]])
        {
          contents := contents + [GUIContent(group[i].itemName, previews[group[i]])];
        }
      }
    }
  }
}
