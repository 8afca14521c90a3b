/** What the product view promises: which criteria let everything through, the
    orders the numeric keys produce, that search ignores letter case, and what
    a reset restores. */
module FilterLaws {
  import opened Catalog
  import opened Text
  import opened Sorting
  import opened ProductFilters

  /** With no search text, no category and a ceiling above every price, the
      view holds every product exactly as often as the catalog does. */
  lemma UnfilteredShowsAll(ps: seq<Product>, c: Criteria, collate: (string, string) -> int)
    requires c.search == "" && c.category == ""
    requires forall k :: 0 <= k < |ps| ==> Within(ps[k].price, c.maxPrice)
    ensures multiset(FilteredProducts(ps, c, collate)) == multiset(ps)
  {
    var r := FilteredProducts(ps, c, collate);
    forall p
      ensures multiset(r)[p] == multiset(ps)[p]
    {
      if p in ps {
        var k :| 0 <= k < |ps| && ps[k] == p;
        assert Matches(c, ps[k]);
      }
    }
    assert multiset(r) == multiset(ps);
  }

  /** A category no product carries empties the view. */
  lemma UnknownCategoryShowsNothing(ps: seq<Product>, c: Criteria, collate: (string, string) -> int)
    requires c.category != ""
    requires forall k :: 0 <= k < |ps| ==> ps[k].category != c.category
    ensures FilteredProducts(ps, c, collate) == []
  {
    var r := FilteredProducts(ps, c, collate);
    forall p
      ensures multiset(r)[p] == 0
    {
      if p in ps {
        var k :| 0 <= k < |ps| && ps[k] == p;
        assert !Matches(c, ps[k]);
      }
    }
    assert multiset(r) == multiset{};
  }

  /** Ascending price: prices never decrease along the view. */
  lemma PriceAscOrder(ps: seq<Product>, c: Criteria, collate: (string, string) -> int)
    requires c.sortBy == PriceAsc
    ensures var r := FilteredProducts(ps, c, collate);
            forall i, j :: 0 <= i < j < |r| ==> r[i].price <= r[j].price
  {
    var key := PriceOf;
    assert KeyComparator(Comparator(PriceAsc, collate), key);
    SortBySorts(Keep(ps, c), Comparator(PriceAsc, collate), key);
  }

  /** Descending price: prices never increase along the view. */
  lemma PriceDescOrder(ps: seq<Product>, c: Criteria, collate: (string, string) -> int)
    requires c.sortBy == PriceDesc
    ensures var r := FilteredProducts(ps, c, collate);
            forall i, j :: 0 <= i < j < |r| ==> r[i].price >= r[j].price
  {
    var key := NegatedPrice;
    assert KeyComparator(Comparator(PriceDesc, collate), key);
    SortBySorts(Keep(ps, c), Comparator(PriceDesc, collate), key);
  }

  /** Rating: ratings never increase along the view. */
  lemma RatingOrder(ps: seq<Product>, c: Criteria, collate: (string, string) -> int)
    requires c.sortBy == Rating
    ensures var r := FilteredProducts(ps, c, collate);
            forall i, j :: 0 <= i < j < |r| ==> r[i].rating >= r[j].rating
  {
    var key := NegatedRating;
    assert KeyComparator(Comparator(Rating, collate), key);
    SortBySorts(Keep(ps, c), Comparator(Rating, collate), key);
  }

  /** Ascending price is stable: products of equal price keep the order the
      catalog lists them in. */
  lemma PriceAscIsStable(ps: seq<Product>, c: Criteria, collate: (string, string) -> int, v: int)
    requires c.sortBy == PriceAsc
    ensures WithKey(FilteredProducts(ps, c, collate), PriceOf, v)
         == WithKey(Keep(ps, c), PriceOf, v)
  {
    var cmp := Comparator(PriceAsc, collate);
    var price := PriceOf;
    assert KeyComparator(cmp, price);
    SortByIsStable(Keep(ps, c), cmp, price, v);
  }

  /** Descending price is stable in the same sense. */
  lemma PriceDescIsStable(ps: seq<Product>, c: Criteria, collate: (string, string) -> int, v: int)
    requires c.sortBy == PriceDesc
    ensures WithKey(FilteredProducts(ps, c, collate), PriceOf, v)
         == WithKey(Keep(ps, c), PriceOf, v)
  {
    var cmp := Comparator(PriceDesc, collate);
    assert KeyComparator(cmp, NegatedPrice);
    assert forall x: Product :: NegatedPrice(x) == -v <==> PriceOf(x) == v;
    SortByIsStableFor(Keep(ps, c), cmp, NegatedPrice, -v, PriceOf, v);
  }

  /** The rating sort is stable: products of equal rating keep the order the
      catalog lists them in. */
  lemma RatingIsStable(ps: seq<Product>, c: Criteria, collate: (string, string) -> int, v: int)
    requires c.sortBy == Rating
    ensures WithKey(FilteredProducts(ps, c, collate), RatingOf, v)
         == WithKey(Keep(ps, c), RatingOf, v)
  {
    var cmp := Comparator(Rating, collate);
    assert KeyComparator(cmp, NegatedRating);
    assert forall x: Product :: NegatedRating(x) == -v <==> RatingOf(x) == v;
    SortByIsStableFor(Keep(ps, c), cmp, NegatedRating, -v, RatingOf, v);
  }

  /** Products that pass the filter already in ascending price order keep
      their order, ties included. */
  lemma PriceAscKeepsOrderedInput(ps: seq<Product>, c: Criteria, collate: (string, string) -> int)
    requires c.sortBy == PriceAsc
    requires forall i, j :: 0 <= i < j < |ps| ==> ps[i].price <= ps[j].price
    requires forall k :: 0 <= k < |ps| ==> Matches(c, ps[k])
    ensures FilteredProducts(ps, c, collate) == ps
  {
    KeepAllPassing(ps, c);
    var key := PriceOf;
    assert KeyComparator(Comparator(PriceAsc, collate), key);
    SortByKeepsSortedInput(ps, Comparator(PriceAsc, collate), key);
  }

  /** When every product passes, the filter keeps the list as it is. */
  lemma {:induction false} KeepAllPassing(ps: seq<Product>, c: Criteria)
    requires forall k :: 0 <= k < |ps| ==> Matches(c, ps[k])
    ensures Keep(ps, c) == ps
  {
    if |ps| > 0 {
      KeepAllPassing(ps[1..], c);
      assert Matches(c, ps[0]);
      assert [ps[0]] + ps[1..] == ps;
    }
  }

  /** The filter depends on the criteria only through which products pass. */
  lemma {:induction false} KeepAgrees(ps: seq<Product>, c: Criteria, d: Criteria)
    requires forall p :: Matches(c, p) == Matches(d, p)
    ensures Keep(ps, c) == Keep(ps, d)
  {
    if |ps| > 0 {
      KeepAgrees(ps[1..], c, d);
    }
  }

  /** Two search texts that lower-case alike select the same products in the
      same order. */
  lemma SearchIgnoresCase(ps: seq<Product>, c: Criteria, q: string, collate: (string, string) -> int)
    requires Lower(q) == Lower(c.search)
    ensures FilteredProducts(ps, c.(search := q), collate) == FilteredProducts(ps, c, collate)
  {
    assert |q| == |c.search|;
    forall p
      ensures Matches(c.(search := q), p) == Matches(c, p)
    {
    }
    KeepAgrees(ps, c.(search := q), c);
  }

  /** In particular a search text and its lower-cased form select the same. */
  lemma LowerCasedSearchSelectsSame(ps: seq<Product>, c: Criteria, collate: (string, string) -> int)
    ensures FilteredProducts(ps, c.(search := Lower(c.search)), collate) == FilteredProducts(ps, c, collate)
  {
    LowerIdempotent(c.search);
    SearchIgnoresCase(ps, c, Lower(c.search), collate);
  }

  /** After a reset the view is the whole catalog, ordered by falling rating. */
  lemma ResetShowsAll(ps: seq<Product>, collate: (string, string) -> int)
    ensures multiset(FilteredProducts(ps, ResetFilters(ps), collate)) == multiset(ps)
    ensures var r := FilteredProducts(ps, ResetFilters(ps), collate);
            forall i, j :: 0 <= i < j < |r| ==> r[i].rating >= r[j].rating
  {
    var c := ResetFilters(ps);
    UnfilteredShowsAll(ps, c, collate);
    RatingOrder(ps, c, collate);
  }

  /** The reset ceiling is the catalog's highest price, not the initial 2000.00:
      a product priced above that is hidden at start and shown after a reset. */
  lemma ResetIsNotInitial()
    ensures var ps := [Product(1, "Studio Display", 250000, "", "", "Monitors", 3, 45)];
            && !Matches(InitialCriteria, ps[0])
            && Matches(ResetFilters(ps), ps[0])
            && ResetFilters(ps).maxPrice == UpTo(250000)
  {
  }

  /** Filtering works element by element: the passing products of two lists
      laid end to end are those of each, so survivors keep their input order. */
  lemma {:induction false} KeepAppend(a: seq<Product>, b: seq<Product>, c: Criteria)
    ensures Keep(a + b, c) == Keep(a, c) + Keep(b, c)
    decreases |a|
  {
    if |a| == 0 {
      assert a + b == b;
    } else {
      assert (a + b)[1..] == a[1..] + b;
      KeepAppend(a[1..], b, c);
    }
  }
}
