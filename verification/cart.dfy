/** The cart engine: an ordered sequence of lines, each pairing a product
    snapshot with a quantity, and the operations the store offers on it. Every
    operation is a function from the old cart to the new one. */
module CartEngine {
  import opened Wrappers
  import opened Catalog

  /** One line of the cart. The product is the snapshot taken when the line was
      created; its price is the one the total uses. */
  datatype Line = Line(product: Product, quantity: int)

  /** Lines in the order they were first added. */
  type Cart = seq<Line>

  /** The one failure an add can report. */
  datatype CartError = NotEnoughStock

  /** The index of the first line for product `id`, as `cart.find` picks it. */
  function FindLine(cart: Cart, id: int): (r: Option<nat>)
    ensures r.None? <==> forall j :: 0 <= j < |cart| ==> cart[j].product.id != id
    ensures r.Some? ==> r.value < |cart| && cart[r.value].product.id == id
    ensures r.Some? ==> forall j :: 0 <= j < r.value ==> cart[j].product.id != id
  {
    if |cart| == 0 then
      None
    else if cart[0].product.id == id then
      Some(0)
    else
      match FindLine(cart[1..], id)
      case None => None
      case Some(k) => Some(k + 1)
  }

  /** The quantity held for product `id`: that of its first line, or 0. */
  function HeldQuantity(cart: Cart, id: int): int
  {
    match FindLine(cart, id)
    case None => 0
    case Some(i) => cart[i].quantity
  }

  /** `after` is `before` with the quantity of line `i` set to `q`, and no other
      change: same length, same products, same other lines in the same order. */
  ghost predicate SetAt(before: Cart, after: Cart, i: int, q: int)
  {
    && 0 <= i < |before| == |after|
    && after[i] == Line(before[i].product, q)
    && forall j :: 0 <= j < |before| && j != i ==> after[j] == before[j]
  }

  /** Line `i` with its quantity replaced. */
  function WithQuantity(cart: Cart, i: nat, q: int): (r: Cart)
    requires i < |cart|
    ensures SetAt(cart, r, i, q)
  {
    cart[i := cart[i].(quantity := q)]
  }

  /** Adds one unit of `product`. The ceiling is the stock of the product passed
      in, not of the catalog entry. On success the held line grows by one, or a
      new line of one unit is appended at the end. */
  function AddToCart(cart: Cart, product: Product): (r: Result<Cart, CartError>)
    ensures r.Failure? <==> HeldQuantity(cart, product.id) >= product.stock
    ensures r.Success? && FindLine(cart, product.id).Some? ==>
              SetAt(cart, r.value, FindLine(cart, product.id).value,
                    cart[FindLine(cart, product.id).value].quantity + 1)
    ensures r.Success? && FindLine(cart, product.id).None? ==>
              |r.value| == |cart| + 1 && r.value[..|cart|] == cart
              && r.value[|cart|] == Line(product, 1)
  {
    var existing := FindLine(cart, product.id);
    var current := if existing.Some? then cart[existing.value].quantity else 0;
    if current >= product.stock then
      Failure(NotEnoughStock)
    else if existing.Some? then
      Success(WithQuantity(cart, existing.value, current + 1))
    else
      Success(cart + [Line(product, 1)])
  }

  /** Drops every line for product `id` and keeps the others in order. */
  function RemoveFromCart(cart: Cart, id: int): (r: Cart)
    ensures forall j :: 0 <= j < |r| ==> r[j].product.id != id
    ensures forall l :: l in r <==> l in cart && l.product.id != id
    ensures FindLine(cart, id).None? ==> r == cart
    ensures |r| <= |cart|
  {
    if |cart| == 0 then
      []
    else
      (if cart[0].product.id == id then [] else [cart[0]]) + RemoveFromCart(cart[1..], id)
  }

  /** The quantity that `updateQuantity` stores for a request of `q` against a
      ceiling of `stock`: below 1 becomes 1, else above stock becomes stock.
      The lower bound is tested first, so a ceiling under 1 can still win. */
  function Clamp(q: int, stock: int): (r: int)
    ensures stock >= 1 ==> 1 <= r <= stock
    ensures 1 <= q <= stock ==> r == q
    ensures q < 1 ==> r == 1
    ensures q >= 1 ==> r <= q
    ensures q >= 1 && stock < 1 ==> r == stock
    ensures q >= 1 && q > stock ==> r == stock
  {
    if q < 1 then 1 else if q > stock then stock else q
  }

  /** Sets the quantity of the first line for `id` to the clamped request,
      clamped against the catalog's stock. Does nothing when the cart has no
      line or the catalog no product for `id`. */
  function UpdateQuantity(catalog: seq<Product>, cart: Cart, id: int, q: int): (r: Cart)
    ensures FindLine(cart, id).None? || Lookup(catalog, id).None? ==> r == cart
    ensures FindLine(cart, id).Some? && Lookup(catalog, id).Some? ==>
              SetAt(cart, r, FindLine(cart, id).value, Clamp(q, Lookup(catalog, id).value.stock))
  {
    match (FindLine(cart, id), Lookup(catalog, id))
    case (Some(i), Some(p)) => WithQuantity(cart, i, Clamp(q, p.stock))
    case _ => cart
  }

  /** Adds one unit to the first line for `id` when it is below the catalog's
      stock; otherwise, or when line or product is missing, does nothing. */
  function IncrementQuantity(catalog: seq<Product>, cart: Cart, id: int): (r: Cart)
    ensures FindLine(cart, id).None? || Lookup(catalog, id).None? ==> r == cart
    ensures FindLine(cart, id).Some? && Lookup(catalog, id).Some? ==>
              var i := FindLine(cart, id).value;
              if cart[i].quantity < Lookup(catalog, id).value.stock
              then SetAt(cart, r, i, cart[i].quantity + 1)
              else r == cart
  {
    match (FindLine(cart, id), Lookup(catalog, id))
    case (Some(i), Some(p)) =>
      if cart[i].quantity < p.stock then WithQuantity(cart, i, cart[i].quantity + 1) else cart
    case _ => cart
  }

  /** Takes one unit from the first line for `id` when it holds more than one.
      The line is never removed; a missing line means no change. */
  function DecrementQuantity(cart: Cart, id: int): (r: Cart)
    ensures |r| == |cart|
    ensures forall j :: 0 <= j < |cart| ==> r[j].product == cart[j].product
    ensures forall j :: 0 <= j < |cart| ==>
              r[j].quantity == cart[j].quantity || r[j].quantity == cart[j].quantity - 1 >= 1
    ensures FindLine(cart, id).Some? && cart[FindLine(cart, id).value].quantity > 1 ==>
              SetAt(cart, r, FindLine(cart, id).value, cart[FindLine(cart, id).value].quantity - 1)
    ensures FindLine(cart, id).None? || cart[FindLine(cart, id).value].quantity <= 1 ==> r == cart
  {
    match FindLine(cart, id)
    case Some(i) =>
      if cart[i].quantity > 1 then WithQuantity(cart, i, cart[i].quantity - 1) else cart
    case None => cart
  }

  /** The cart after `clearCart`. */
  function ClearCart(): (r: Cart)
    ensures |r| == 0
  {
    []
  }

  /** Total number of units, the sum of the line quantities. */
  function ItemsCount(cart: Cart): (n: int)
    ensures (forall j :: 0 <= j < |cart| ==> cart[j].quantity >= 1) ==> n >= |cart|
  {
    if |cart| == 0 then 0 else cart[0].quantity + ItemsCount(cart[1..])
  }

  /** Total price: each line's own snapshot price times its quantity. */
  function CartTotal(cart: Cart): (t: int)
    ensures (forall j :: 0 <= j < |cart| ==> cart[j].product.price >= 0 && cart[j].quantity >= 0) ==> t >= 0
  {
    if |cart| == 0 then 0 else cart[0].product.price * cart[0].quantity + CartTotal(cart[1..])
  }

  /** At most one line per product identifier. */
  ghost predicate UniqueIds(cart: Cart)
  {
    forall i, j :: 0 <= i < j < |cart| ==> cart[i].product.id != cart[j].product.id
  }

  /** A line respects the catalog: at least one unit, and no more than the
      catalog's stock when the catalog lists the product. */
  ghost predicate LineInStock(catalog: seq<Product>, l: Line)
  {
    && 1 <= l.quantity
    && (Lookup(catalog, l.product.id).Some? ==> l.quantity <= Lookup(catalog, l.product.id).value.stock)
  }

  /** Every line respects the catalog. */
  ghost predicate InStock(catalog: seq<Product>, cart: Cart)
  {
    forall j :: 0 <= j < |cart| ==> LineInStock(catalog, cart[j])
  }
}
