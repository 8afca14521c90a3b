/** The product list view: filter by category, price ceiling and search text,
    then sort by the chosen key; plus the category facet, the highest price and
    the reset of the criteria. */
module ProductFilters {
  import opened Catalog
  import opened Text
  import opened Sorting

  /** The four sort orders the view offers. */
  datatype SortKey = PriceAsc | PriceDesc | Name | Rating

  /** A price ceiling. `Math.max` of no prices is minus infinity, which no price
      is at or below. */
  datatype Ceiling = MinusInfinity | UpTo(amount: int)

  /** The filter state of the view. */
  datatype Criteria = Criteria(search: string, category: string, maxPrice: Ceiling, sortBy: SortKey)

  /** The state the view starts in: a ceiling of 2000.00, sorted by rating. */
  const InitialCriteria := Criteria("", "", UpTo(200000), Rating)

  /** `price <= ceiling`. */
  predicate Within(price: int, ceiling: Ceiling)
  {
    ceiling.UpTo? && price <= ceiling.amount
  }

  /** The search text occurs, ignoring letter case, in the name or description. */
  predicate SearchMatch(search: string, p: Product)
  {
    search == "" || Includes(Lower(p.name), Lower(search)) || Includes(Lower(p.description), Lower(search))
  }

  /** A product passes all three checks. */
  predicate Matches(c: Criteria, p: Product)
  {
    && (c.category == "" || p.category == c.category)
    && Within(p.price, c.maxPrice)
    && SearchMatch(c.search, p)
  }

  /** The products that pass, in input order. Each passing product is kept as
      often as it occurs; nothing else is. */
  function Keep(ps: seq<Product>, c: Criteria): (r: seq<Product>)
    ensures forall p :: multiset(r)[p] == if Matches(c, p) then multiset(ps)[p] else 0
    ensures forall k :: 0 <= k < |r| ==> Matches(c, r[k])
  {
    if |ps| == 0 then []
    else
      assert ps == [ps[0]] + ps[1..];
      var rest := Keep(ps[1..], c);
      assert forall k :: 0 <= k < |rest| ==> Matches(c, rest[k]);
      (if Matches(c, ps[0]) then [ps[0]] else []) + rest
  }

  /** The price, as a function value for selecting and ordering by it. */
  function PriceOf(p: Product): int { p.price }

  /** The rating, as a function value for selecting and ordering by it. */
  function RatingOf(p: Product): int { p.rating }

  /** The key the descending price sort orders by. */
  function NegatedPrice(p: Product): int { -p.price }

  /** The key the rating sort orders by. */
  function NegatedRating(p: Product): int { -p.rating }

  /** The comparator for a sort key. Names go through `collate`, the locale
      comparison the platform supplies. */
  function Compare(key: SortKey, collate: (string, string) -> int, a: Product, b: Product): int
  {
    match key
    case PriceAsc => a.price - b.price
    case PriceDesc => b.price - a.price
    case Name => collate(a.name, b.name)
    case Rating => b.rating - a.rating
  }

  /** The comparator as a value. */
  function Comparator(key: SortKey, collate: (string, string) -> int): (Product, Product) -> int
  {
    (a: Product, b: Product) => Compare(key, collate, a, b)
  }

  /** The view: the passing products, each exactly as often as in the input,
      stably sorted by the chosen key. */
  function FilteredProducts(ps: seq<Product>, c: Criteria, collate: (string, string) -> int): (r: seq<Product>)
    ensures forall p :: multiset(r)[p] == if Matches(c, p) then multiset(ps)[p] else 0
    ensures forall k :: 0 <= k < |r| ==> Matches(c, r[k])
  {
    var kept := Keep(ps, c);
    var r := SortBy(kept, Comparator(c.sortBy, collate));
    PermutationKeepsMatches(kept, r, c);
    r
  }

  /** Reordering passing products leaves only passing products. */
  lemma PermutationKeepsMatches(a: seq<Product>, b: seq<Product>, c: Criteria)
    requires multiset(a) == multiset(b)
    requires forall k :: 0 <= k < |a| ==> Matches(c, a[k])
    ensures forall k :: 0 <= k < |b| ==> Matches(c, b[k])
  {
    forall k | 0 <= k < |b|
      ensures Matches(c, b[k])
    {
      assert b[k] in multiset(a);
    }
  }

  /** The distinct categories, each once, in order of first appearance. */
  function Categories(ps: seq<Product>): (r: seq<string>)
    ensures forall i, j :: 0 <= i < j < |r| ==> r[i] != r[j]
    ensures forall name :: name in r <==> exists k :: 0 <= k < |ps| && ps[k].category == name
  {
    if |ps| == 0 then []
    else
      var init := ps[..|ps| - 1];
      var r := Categories(init);
      assert forall k :: 0 <= k < |init| ==> init[k] == ps[k];
      if ps[|ps| - 1].category in r then r else r + [ps[|ps| - 1].category]
  }

  /** The highest price: minus infinity for no products, otherwise a price some
      product has and no product exceeds. */
  function MaxAvailablePrice(ps: seq<Product>): (r: Ceiling)
    ensures r.MinusInfinity? <==> |ps| == 0
    ensures r.UpTo? ==> forall k :: 0 <= k < |ps| ==> ps[k].price <= r.amount
    ensures r.UpTo? ==> exists k :: 0 <= k < |ps| && ps[k].price == r.amount
  {
    if |ps| == 0 then MinusInfinity
    else match MaxAvailablePrice(ps[1..])
      case MinusInfinity => UpTo(ps[0].price)
      case UpTo(m) =>
        assert forall k :: 1 <= k < |ps| ==> ps[k] == ps[1..][k - 1];
        if ps[0].price >= m then UpTo(ps[0].price) else UpTo(m)
  }

  /** The criteria after a reset: no search text, no category, sorted by rating,
      and a ceiling at the current highest price, so every product passes. */
  function ResetFilters(ps: seq<Product>): (r: Criteria)
    ensures r.search == "" && r.category == "" && r.sortBy == Rating
    ensures r.maxPrice == MaxAvailablePrice(ps)
    ensures forall k :: 0 <= k < |ps| ==> Matches(r, ps[k])
  {
    Criteria("", "", MaxAvailablePrice(ps), Rating)
  }
}
