/** The product record and the catalog lookup by identifier. Prices are whole
    cents and ratings whole tenths, so sums and comparisons are exact. */
module Catalog {
  import opened Wrappers

  /** A product of the catalog. `stock` is the ceiling on how many units a cart
      may hold; nothing in the store ever lowers it. */
  datatype Product = Product(
    id: int,
    name: string,
    price: int,
    description: string,
    image: string,
    category: string,
    stock: int,
    rating: int)

  /** The first product whose identifier is `id`, as `products.find` returns it. */
  function Lookup(catalog: seq<Product>, id: int): (r: Option<Product>)
    ensures r.None? <==> forall k :: 0 <= k < |catalog| ==> catalog[k].id != id
    ensures r.Some? ==> r.value.id == id
    ensures r.Some? ==> exists k :: 0 <= k < |catalog| && catalog[k] == r.value
                                    && forall j :: 0 <= j < k ==> catalog[j].id != id
  {
    if |catalog| == 0 then
      None
    else if catalog[0].id == id then
      Some(catalog[0])
    else
      var r := Lookup(catalog[1..], id);
      if r.Some? then
        ghost var k :| 0 <= k < |catalog| - 1 && catalog[1..][k] == r.value
                       && forall j :: 0 <= j < k ==> catalog[1..][j].id != id;
        assert catalog[k + 1] == r.value;
        r
      else
        r
  }
}
