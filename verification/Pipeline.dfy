/**
 The data pipeline of the product list (src/components/ProductList.jsx):
 the category options of the selector, the name/category filter, and the
 price sort of the filtered list.
 */
module Pipeline {
  import opened Products
  import opened Seqs
  import Text
  import PriceSort

  /** The selector option that disables the category filter. */
  const AllCategories: string := "All"

  /** `["All", ...new Set(products.map(p => p.category))]`. */
  function CategoryOptions(products: seq<Product>): seq<string> {
    [AllCategories] + Distinct(CategoryColumn(products))
  }

  /** The selector offers "All" first, then every category of the loaded
      products exactly once. */
  lemma CategoryOptionsContents(products: seq<Product>)
    ensures |CategoryOptions(products)| >= 1 && CategoryOptions(products)[0] == AllCategories
    ensures NoDuplicates(CategoryOptions(products)[1..])
    ensures forall c :: c in CategoryOptions(products)[1..] <==> exists p :: p in products && p.category == c
  {
    var column := CategoryColumn(products);
    var distinct := Distinct(column);
    DistinctSpec(column);
    assert CategoryOptions(products)[1..] == distinct;
    forall c ensures c in distinct <==> exists p :: p in products && p.category == c {
      if c in distinct {
        var k :| 0 <= k < |distinct| && distinct[k] == c;
        var m :| 0 <= m < |column| && column[m] == c;
        assert products[m] in products;
      }
      if exists p :: p in products && p.category == c {
        var p :| p in products && p.category == c;
        var k :| 0 <= k < |products| && products[k] == p;
        assert column[k] == c;
      }
    }
  }

  /** The categories after "All" appear in the order they are first met
      in the product list. */
  lemma CategoryOptionsOrder(products: seq<Product>)
    ensures forall i :: 1 <= i < |CategoryOptions(products)| ==> CategoryOptions(products)[i] in CategoryColumn(products)
    ensures forall i, j :: 1 <= i < j < |CategoryOptions(products)| ==>
      FirstIndex(CategoryColumn(products), CategoryOptions(products)[i])
        < FirstIndex(CategoryColumn(products), CategoryOptions(products)[j])
  {
    var options := CategoryOptions(products);
    var column := CategoryColumn(products);
    var distinct := Distinct(column);
    DistinctSpec(column);
    forall i | 1 <= i < |options| ensures options[i] == distinct[i - 1] {}
  }

  /** "All" is offered twice exactly when some product is literally in a
      category called "All", and once otherwise. */
  lemma CategoryOptionsAllCount(products: seq<Product>)
    ensures multiset(CategoryOptions(products))[AllCategories]
      == if AllCategories in CategoryColumn(products) then 2 else 1
  {
    var column := CategoryColumn(products);
    var distinct := Distinct(column);
    DistinctSpec(column);
    assert multiset(CategoryOptions(products)) == multiset{AllCategories} + multiset(distinct);
    NoDuplicatesCount(distinct, AllCategories);
    assert AllCategories in distinct <==> AllCategories in column by {
      if AllCategories in column {
        var m :| 0 <= m < |column| && column[m] == AllCategories;
      }
      if AllCategories in distinct {
        var k :| 0 <= k < |distinct| && distinct[k] == AllCategories;
      }
    }
  }

  /** The category options built the way the source builds them: walk the
      products once, adding a category to a set (and to the output) the
      first time it is met. */
  method DeriveCategories(products: seq<Product>) returns (categories: seq<string>)
    ensures categories == CategoryOptions(products)
  {
    var column := CategoryColumn(products);
    var seen: set<string> := {};
    var distinct: seq<string> := [];
    var i := 0;
    while i < |products|
      invariant 0 <= i <= |products|
      invariant distinct == Distinct(column[..i])
      invariant seen == set c | c in distinct
    {
      var c := products[i].category;
      ghost var next := column[..i + 1];
      assert next[..|next| - 1] == column[..i] && next[|next| - 1] == c;
      assert c in seen <==> c in distinct;
      if c !in seen {
        seen := seen + {c};
        distinct := distinct + [c];
      }
      i := i + 1;
    }
    assert column[..i] == column;
    categories := [AllCategories] + distinct;
  }

  /** The search box and category selector both accept the product:
      its lower-cased name contains the lower-cased search term, and the
      selected category is "All" or the product's own. */
  predicate Matches(p: Product, searchTerm: string, selectedCategory: string) {
    && Text.Includes(Text.Lower(p.name), Text.Lower(searchTerm))
    && (selectedCategory == AllCategories || p.category == selectedCategory)
  }

  /** `products.filter(p => Matches(p, ...))`. */
  function FilterProducts(products: seq<Product>, searchTerm: string, selectedCategory: string): (r: seq<Product>)
    ensures IsSubsequence(r, products)
    ensures forall i :: 0 <= i < |r| ==> Matches(r[i], searchTerm, selectedCategory)
    ensures forall p :: multiset(r)[p] == if Matches(p, searchTerm, selectedCategory) then multiset(products)[p] else 0
  {
    if |products| == 0 then []
    else
      var rest := FilterProducts(products[1..], searchTerm, selectedCategory);
      assert products == [products[0]] + products[1..];
      if Matches(products[0], searchTerm, selectedCategory) then
        assert ([products[0]] + rest)[1..] == rest;
        [products[0]] + rest
      else
        assert |rest| > 0 ==> rest[0] != products[0];
        rest
  }

  /** The filter keeps a product exactly when it matches. */
  lemma FilterMembers(products: seq<Product>, searchTerm: string, selectedCategory: string, p: Product)
    ensures p in FilterProducts(products, searchTerm, selectedCategory)
        <==> p in products && Matches(p, searchTerm, selectedCategory)
  {
    var r := FilterProducts(products, searchTerm, selectedCategory);
    assert p in r <==> multiset(r)[p] > 0;
    assert p in products <==> multiset(products)[p] > 0;
  }

  /** The filter never shows more products than were loaded. */
  lemma FilterShrinks(products: seq<Product>, searchTerm: string, selectedCategory: string)
    ensures |FilterProducts(products, searchTerm, selectedCategory)| <= |products|
  {
    SubsequenceLength(FilterProducts(products, searchTerm, selectedCategory), products);
  }

  /** With an empty search term and "All" selected, every product is shown,
      in list order. */
  lemma {:induction false} UnfilteredShowsEverything(products: seq<Product>)
    ensures FilterProducts(products, "", AllCategories) == products
  {
    if |products| > 0 {
      MatchesUnfiltered(products[0]);
      FilterKeepsHead(products, "", AllCategories);
      UnfilteredShowsEverything(products[1..]);
      assert products == [products[0]] + products[1..];
    }
  }

  /** A matching first product heads the filtered list. */
  lemma FilterKeepsHead(products: seq<Product>, searchTerm: string, selectedCategory: string)
    requires |products| > 0 && Matches(products[0], searchTerm, selectedCategory)
    ensures FilterProducts(products, searchTerm, selectedCategory)
        == [products[0]] + FilterProducts(products[1..], searchTerm, selectedCategory)
  {
  }

  /** Every product matches the empty search term with "All" selected. */
  lemma MatchesUnfiltered(p: Product)
    ensures Matches(p, "", AllCategories)
  {
    Text.IncludesEmpty(Text.Lower(p.name));
    assert Text.Lower("") == "";
  }

  /** The rows of the table: the filtered products sorted by price. */
  function VisibleProducts(products: seq<Product>, searchTerm: string, selectedCategory: string, priceSort: string): (r: seq<Product>)
    ensures multiset(r) == multiset(FilterProducts(products, searchTerm, selectedCategory))
    ensures PriceSort.Sorted(priceSort, r)
    ensures PriceSort.Stable(FilterProducts(products, searchTerm, selectedCategory), r)
    ensures |r| <= |products|
  {
    FilterShrinks(products, searchTerm, selectedCategory);
    PriceSort.SortByPrice(priceSort, FilterProducts(products, searchTerm, selectedCategory))
  }

  /** A product is a visible row exactly when it matches the filters. */
  lemma VisibleMembers(products: seq<Product>, searchTerm: string, selectedCategory: string, priceSort: string, p: Product)
    ensures p in VisibleProducts(products, searchTerm, selectedCategory, priceSort)
        <==> p in products && Matches(p, searchTerm, selectedCategory)
  {
    var f := FilterProducts(products, searchTerm, selectedCategory);
    var r := VisibleProducts(products, searchTerm, selectedCategory, priceSort);
    assert p in r <==> multiset(r)[p] > 0;
    assert p in f <==> multiset(f)[p] > 0;
    FilterMembers(products, searchTerm, selectedCategory, p);
  }

  /** "Showing X / Y products": with no search term and "All" selected,
      X equals Y. */
  lemma UnfilteredCountIsTotal(products: seq<Product>, priceSort: string)
    ensures |VisibleProducts(products, "", AllCategories, priceSort)| == |products|
  {
    UnfilteredShowsEverything(products);
  }

  /** The search ignores letter case on both sides: names that differ
      only in case, searched with terms that differ only in case, match
      alike. */
  lemma SearchIgnoresCase(a: Product, b: Product, t1: string, t2: string, selectedCategory: string)
    requires Text.Lower(a.name) == Text.Lower(b.name)
    requires Text.Lower(t1) == Text.Lower(t2)
    requires a.category == b.category
    ensures Matches(a, t1, selectedCategory) <==> Matches(b, t2, selectedCategory)
  {
  }

  /** In particular, lower-casing the name, the search term, or both
      beforehand does not change whether a product matches. */
  lemma LoweringDoesNotMatter(p: Product, searchTerm: string, selectedCategory: string)
    ensures Matches(p, searchTerm, selectedCategory)
        <==> Matches(p.(name := Text.Lower(p.name)), searchTerm, selectedCategory)
    ensures Matches(p, searchTerm, selectedCategory)
        <==> Matches(p, Text.Lower(searchTerm), selectedCategory)
  {
    Text.LowerIdempotent(p.name);
    Text.LowerIdempotent(searchTerm);
    SearchIgnoresCase(p, p.(name := Text.Lower(p.name)), searchTerm, searchTerm, selectedCategory);
    SearchIgnoresCase(p, p, searchTerm, Text.Lower(searchTerm), selectedCategory);
  }

  /** A concrete case: a 10-priced and a 5-priced tool and a 20-priced
      part, with no search term, category "Tools" and ascending order,
      show the two tools, cheapest first. */
  lemma ToolsExample()
    ensures var widget := Product(1, "Widget", "Tools", 10);
      var gadget := Product(2, "Gadget", "Tools", 5);
      var sprocket := Product(3, "Sprocket", "Parts", 20);
      VisibleProducts([widget, gadget, sprocket], "", "Tools", "asc") == [gadget, widget]
  {
    var widget := Product(1, "Widget", "Tools", 10);
    var gadget := Product(2, "Gadget", "Tools", 5);
    var sprocket := Product(3, "Sprocket", "Parts", 20);
    ToolsExampleFilter(widget, gadget, sprocket);
    ToolsExampleSort(widget, gadget);
  }

  lemma ToolsExampleFilter(widget: Product, gadget: Product, sprocket: Product)
    requires widget == Product(1, "Widget", "Tools", 10)
    requires gadget == Product(2, "Gadget", "Tools", 5)
    requires sprocket == Product(3, "Sprocket", "Parts", 20)
    ensures FilterProducts([widget, gadget, sprocket], "", "Tools") == [widget, gadget]
  {
    var all := [widget, gadget, sprocket];
    Text.IncludesEmpty(Text.Lower("Widget"));
    Text.IncludesEmpty(Text.Lower("Gadget"));
    assert Text.Lower("") == "";
    assert Matches(widget, "", "Tools") && Matches(gadget, "", "Tools") && !Matches(sprocket, "", "Tools");
    assert all[1..] == [gadget, sprocket];
    assert all[1..][1..] == [sprocket];
    assert FilterProducts([sprocket], "", "Tools") == [];
    assert FilterProducts([gadget, sprocket], "", "Tools") == [gadget];
  }

  lemma ToolsExampleSort(widget: Product, gadget: Product)
    requires widget == Product(1, "Widget", "Tools", 10)
    requires gadget == Product(2, "Gadget", "Tools", 5)
    ensures PriceSort.SortByPrice("asc", [widget, gadget]) == [gadget, widget]
  {
    assert [widget, gadget][1..] == [gadget];
    assert PriceSort.SortByPrice("asc", [gadget]) == [gadget];
    assert PriceSort.Insert("asc", widget, [gadget]) == [gadget, widget];
  }
}
