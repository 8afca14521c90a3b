/** What the cart operations promise together: the uniqueness and stock-bound
    invariants they keep, how they move the derived count and total, and the
    round trips between them. */
module CartLaws {
  import opened Wrappers
  import opened Catalog
  import opened CartEngine

  // ---------------------------------------------------------------------------
  // Derived values

  /** Count and total of two carts laid end to end. */
  lemma {:induction false} SumsAppend(a: Cart, b: Cart)
    ensures ItemsCount(a + b) == ItemsCount(a) + ItemsCount(b)
    ensures CartTotal(a + b) == CartTotal(a) + CartTotal(b)
  {
    if |a| > 0 {
      assert (a + b)[1..] == a[1..] + b;
      SumsAppend(a[1..], b);
    } else {
      assert a + b == b;
    }
  }

  /** Changing one line's quantity moves the count by the difference. */
  lemma {:induction false} CountSetAt(before: Cart, after: Cart, i: int, q: int)
    requires SetAt(before, after, i, q)
    ensures ItemsCount(after) == ItemsCount(before) - before[i].quantity + q
    decreases |before|
  {
    if i == 0 {
      assert after[1..] == before[1..];
    } else {
      assert SetAt(before[1..], after[1..], i - 1, q);
      CountSetAt(before[1..], after[1..], i - 1, q);
    }
  }

  /** Changing one line's quantity replaces that line's amount in the total. */
  lemma {:induction false} TotalSetAt(before: Cart, after: Cart, i: int, q: int)
    requires SetAt(before, after, i, q)
    ensures CartTotal(after) == CartTotal(before) - before[i].product.price * before[i].quantity
                                                  + before[i].product.price * q
    decreases |before|
  {
    if i == 0 {
      assert after[1..] == before[1..];
    } else {
      assert SetAt(before[1..], after[1..], i - 1, q);
      TotalSetAt(before[1..], after[1..], i - 1, q);
    }
  }

  /** After clearing, nothing is counted and nothing is owed. */
  lemma ClearedCartIsEmpty()
    ensures ItemsCount(ClearCart()) == 0
    ensures CartTotal(ClearCart()) == 0
    ensures forall id :: HeldQuantity(ClearCart(), id) == 0
  {
  }

  // ---------------------------------------------------------------------------
  // Adding

  /** A successful add holds one more unit of the product: the count grows by
      one, the total by the price on the line that received the unit, and no
      other product's holding changes. */
  lemma AddMovesSums(cart: Cart, product: Product)
    requires AddToCart(cart, product).Success?
    ensures var r := AddToCart(cart, product).value;
            && ItemsCount(r) == ItemsCount(cart) + 1
            && HeldQuantity(r, product.id) == HeldQuantity(cart, product.id) + 1
            && CartTotal(r) == CartTotal(cart) + (match FindLine(cart, product.id)
                                                   case Some(i) => cart[i].product.price
                                                   case None => product.price)
  {
    var r := AddToCart(cart, product).value;
    match FindLine(cart, product.id)
    case Some(i) => BumpMovesSums(cart, r, i, product.id);
    case None => AppendMovesSums(cart, product);
  }

  /** One more unit on line `i`, the first line for `id`. */
  lemma BumpMovesSums(before: Cart, after: Cart, i: int, id: int)
    requires 0 <= i < |before|
    requires SetAt(before, after, i, before[i].quantity + 1)
    requires FindLine(before, id) == Some(i)
    ensures ItemsCount(after) == ItemsCount(before) + 1
    ensures HeldQuantity(after, id) == HeldQuantity(before, id) + 1
    ensures CartTotal(after) == CartTotal(before) + before[i].product.price
  {
    CountSetAt(before, after, i, before[i].quantity + 1);
    SetAtKeepsFind(before, after, i, before[i].quantity + 1, id);
    BumpMovesTotal(before, after, i);
  }

  /** One more unit on line `i` adds that line's price to the total. */
  lemma BumpMovesTotal(before: Cart, after: Cart, i: int)
    requires 0 <= i < |before|
    requires SetAt(before, after, i, before[i].quantity + 1)
    ensures CartTotal(after) == CartTotal(before) + before[i].product.price
  {
    var price := before[i].product.price;
    var q := before[i].quantity;
    TotalSetAt(before, after, i, q + 1);
    OneMoreUnit(price, q);
  }

  /** The price of one more unit. */
  lemma OneMoreUnit(price: int, q: int)
    ensures price * (q + 1) == price * q + price
  {
  }

  /** A new line of one unit at the end, for a product the cart did not hold. */
  lemma AppendMovesSums(cart: Cart, product: Product)
    requires FindLine(cart, product.id).None?
    ensures var r := cart + [Line(product, 1)];
            && ItemsCount(r) == ItemsCount(cart) + 1
            && HeldQuantity(r, product.id) == 1
            && CartTotal(r) == CartTotal(cart) + product.price
  {
    SumsAppend(cart, [Line(product, 1)]);
    assert ItemsCount([Line(product, 1)]) == 1;
    assert CartTotal([Line(product, 1)]) == product.price;
    FindAppended(cart, Line(product, 1));
  }

  /** A line appended for an identifier the cart lacks is the one found. */
  lemma FindAppended(cart: Cart, l: Line)
    requires FindLine(cart, l.product.id).None?
    ensures FindLine(cart + [l], l.product.id) == Some(|cart|)
  {
    var r := cart + [l];
    assert forall j :: 0 <= j < |cart| ==> r[j] == cart[j];
    assert r[|cart|] == l;
  }

  /** A change of one quantity leaves every lookup by identifier where it was. */
  lemma SetAtKeepsFind(before: Cart, after: Cart, i: int, q: int, id: int)
    requires SetAt(before, after, i, q)
    ensures FindLine(after, id) == FindLine(before, id)
  {
    assert forall j :: 0 <= j < |before| ==> after[j].product == before[j].product;
  }

  /** Changing quantities never breaks uniqueness of identifiers. */
  lemma SetAtKeepsUniqueIds(before: Cart, after: Cart, i: int, q: int)
    requires SetAt(before, after, i, q)
    requires UniqueIds(before)
    ensures UniqueIds(after)
  {
    assert forall j :: 0 <= j < |before| ==> after[j].product == before[j].product;
  }

  /** Adding keeps at most one line per product. */
  lemma AddKeepsUniqueIds(cart: Cart, product: Product)
    requires UniqueIds(cart)
    requires AddToCart(cart, product).Success?
    ensures UniqueIds(AddToCart(cart, product).value)
  {
    var r := AddToCart(cart, product).value;
    match FindLine(cart, product.id)
    case Some(i) =>
      SetAtKeepsUniqueIds(cart, r, i, cart[i].quantity + 1);
    case None =>
      assert forall j :: 0 <= j < |cart| ==> r[j] == cart[j];
  }

  /** The catalog's stock for `product` is the stock the argument carries. */
  ghost predicate AgreesWithCatalog(catalog: seq<Product>, product: Product)
  {
    Lookup(catalog, product.id).Some? ==> Lookup(catalog, product.id).value.stock == product.stock
  }

  /** Adding a product whose stock agrees with the catalog keeps every line
      within the catalog's bounds. */
  lemma AddKeepsInStock(catalog: seq<Product>, cart: Cart, product: Product)
    requires InStock(catalog, cart)
    requires AgreesWithCatalog(catalog, product)
    requires AddToCart(cart, product).Success?
    ensures InStock(catalog, AddToCart(cart, product).value)
  {
    var r := AddToCart(cart, product).value;
    match FindLine(cart, product.id)
    case Some(i) =>
      assert LineInStock(catalog, r[i]);
      assert forall j :: 0 <= j < |r| && j != i ==> r[j] == cart[j];
    case None =>
      assert forall j :: 0 <= j < |cart| ==> r[j] == cart[j];
      assert LineInStock(catalog, r[|cart|]);
  }

  /** The ceiling an add checks is the argument's stock: a caller holding a
      stale snapshot with more stock than the catalog can push a line past the
      catalog's stock. */
  lemma AddTrustsArgumentStock()
    ensures var listed := Product(7, "Lamp", 1999, "", "", "Home", 1, 40);
            var stale := listed.(stock := 5);
            var cart := [Line(listed, 1)];
            && InStock([listed], cart)
            && AddToCart(cart, stale).Success?
            && !InStock([listed], AddToCart(cart, stale).value)
  {
    var listed := Product(7, "Lamp", 1999, "", "", "Home", 1, 40);
    var r := AddToCart([Line(listed, 1)], listed.(stock := 5)).value;
    assert Lookup([listed], 7) == Some(listed);
    assert !LineInStock([listed], r[0]);
  }

  /** `n` adds of the same product in a row; the first failure stops the run. */
  function AddTimes(cart: Cart, product: Product, n: nat): Result<Cart, CartError>
  {
    if n == 0 then Success(cart)
    else match AddTimes(cart, product, n - 1)
      case Failure(e) => Failure(e)
      case Success(c) => AddToCart(c, product)
  }

  /** From an empty cart the first `stock` adds succeed and build one line
      holding that many units. */
  lemma {:induction false} AddsUpToStock(product: Product, n: nat)
    requires 1 <= n <= product.stock
    ensures AddTimes([], product, n) == Success([Line(product, n)])
  {
    if n == 1 {
      assert AddTimes([], product, 0) == Success([]);
      AddToHolding(product, 0);
    } else {
      AddsUpToStock(product, n - 1);
      assert AddTimes([], product, n) == AddToCart([Line(product, n - 1)], product);
      AddToHolding(product, n - 1);
    }
  }

  /** One more unit of a product held `held` times, below its stock. */
  lemma AddToHolding(product: Product, held: nat)
    requires held < product.stock
    ensures AddToCart(if held == 0 then [] else [Line(product, held)], product) == Success([Line(product, held + 1)])
  {
    if held == 0 {
      assert FindLine([], product.id).None?;
      assert [] + [Line(product, 1)] == [Line(product, 1)];
    } else {
      var cart := [Line(product, held)];
      assert FindLine(cart, product.id) == Some(0);
      assert WithQuantity(cart, 0, held + 1) == [Line(product, held + 1)];
    }
  }

  /** From an empty cart exactly `stock` adds succeed: the next one fails. */
  lemma AddsStopAtStock(product: Product)
    requires product.stock >= 0
    ensures product.stock >= 1 ==> AddTimes([], product, product.stock) == Success([Line(product, product.stock)])
    ensures AddTimes([], product, product.stock + 1).Failure?
  {
    if product.stock >= 1 {
      AddsUpToStock(product, product.stock);
      assert FindLine([Line(product, product.stock)], product.id) == Some(0);
    }
  }

  // ---------------------------------------------------------------------------
  // Removing

  /** Removal works line by line: removing from two carts laid end to end is
      removing from each, so the surviving lines keep their relative order. */
  lemma {:induction false} RemoveDistributes(a: Cart, b: Cart, id: int)
    ensures RemoveFromCart(a + b, id) == RemoveFromCart(a, id) + RemoveFromCart(b, id)
  {
    if |a| > 0 {
      assert (a + b)[1..] == a[1..] + b;
      RemoveDistributes(a[1..], b, id);
    } else {
      assert a + b == b;
    }
  }

  /** In a cart with one line per product, removal takes away exactly the units
      held for that product. */
  lemma {:induction false} RemoveMovesCount(cart: Cart, id: int)
    requires UniqueIds(cart)
    ensures ItemsCount(RemoveFromCart(cart, id)) == ItemsCount(cart) - HeldQuantity(cart, id)
  {
    if |cart| > 0 {
      var rest := RemoveFromCart(cart[1..], id);
      if cart[0].product.id == id {
        assert FindLine(cart[1..], id).None?;
        assert rest == cart[1..];
        assert RemoveFromCart(cart, id) == [] + rest;
        assert [] + rest == rest;
        assert HeldQuantity(cart, id) == cart[0].quantity;
        assert ItemsCount(RemoveFromCart(cart, id)) == ItemsCount(cart[1..]);
        assert ItemsCount(cart) == cart[0].quantity + ItemsCount(cart[1..]);
      } else {
        assert UniqueIds(cart[1..]);
        RemoveMovesCount(cart[1..], id);
        HeldSkipsOtherHead(cart, id);
        var r := [cart[0]] + rest;
        assert RemoveFromCart(cart, id) == r;
        assert r[0] == cart[0] && r[1..] == rest;
      }
    }
  }

  /** A first line for another product does not affect what is held for `id`. */
  lemma HeldSkipsOtherHead(cart: Cart, id: int)
    requires |cart| > 0 && cart[0].product.id != id
    ensures HeldQuantity(cart, id) == HeldQuantity(cart[1..], id)
  {
    match FindLine(cart[1..], id)
    case None =>
    case Some(k) => assert cart[k + 1] == cart[1..][k];
  }

  /** Removal keeps both invariants. */
  lemma RemoveKeepsInvariants(catalog: seq<Product>, cart: Cart, id: int)
    ensures UniqueIds(cart) ==> UniqueIds(RemoveFromCart(cart, id))
    ensures InStock(catalog, cart) ==> InStock(catalog, RemoveFromCart(cart, id))
  {
    if UniqueIds(cart) {
      RemoveKeepsUniqueIds(cart, id);
    }
    var r := RemoveFromCart(cart, id);
    forall j | 0 <= j < |r| && InStock(catalog, cart)
      ensures LineInStock(catalog, r[j])
    {
      assert r[j] in cart;
    }
  }

  /** Removal keeps at most one line per product. */
  lemma {:induction false} RemoveKeepsUniqueIds(cart: Cart, id: int)
    requires UniqueIds(cart)
    ensures UniqueIds(RemoveFromCart(cart, id))
  {
    if |cart| > 0 {
      var rest := RemoveFromCart(cart[1..], id);
      RemoveKeepsUniqueIds(cart[1..], id);
      if cart[0].product.id != id {
        forall j | 0 <= j < |rest|
          ensures rest[j].product.id != cart[0].product.id
        {
          assert rest[j] in cart[1..];
        }
        assert RemoveFromCart(cart, id) == [cart[0]] + rest;
      }
    }
  }

  // ---------------------------------------------------------------------------
  // Quantities

  /** An update keeps the invariants whatever quantity is requested. A cart
      within stock holds no line for a product whose catalog stock is below
      one, so the sold-out clamp is never reached from a valid cart. */
  lemma UpdateKeepsInvariants(catalog: seq<Product>, cart: Cart, id: int, q: int)
    requires UniqueIds(cart) && InStock(catalog, cart)
    ensures UniqueIds(UpdateQuantity(catalog, cart, id, q))
    ensures InStock(catalog, UpdateQuantity(catalog, cart, id, q))
  {
    var r := UpdateQuantity(catalog, cart, id, q);
    if FindLine(cart, id).Some? && Lookup(catalog, id).Some? {
      var i := FindLine(cart, id).value;
      assert LineInStock(catalog, cart[i]);
      SetAtKeepsUniqueIds(cart, r, i, r[i].quantity);
      assert LineInStock(catalog, r[i]);
      assert forall j :: 0 <= j < |r| && j != i ==> r[j] == cart[j];
    }
  }

  /** Asking for the same quantity twice is asking once. */
  lemma UpdateIdempotent(catalog: seq<Product>, cart: Cart, id: int, q: int)
    ensures var once := UpdateQuantity(catalog, cart, id, q);
            UpdateQuantity(catalog, once, id, q) == once
  {
    var once := UpdateQuantity(catalog, cart, id, q);
    if FindLine(cart, id).Some? && Lookup(catalog, id).Some? {
      var i := FindLine(cart, id).value;
      SetAtKeepsFind(cart, once, i, once[i].quantity, id);
      var twice := UpdateQuantity(catalog, once, id, q);
      assert SetAt(once, twice, i, once[i].quantity);
      assert twice == once;
    }
  }

  /** On a product the catalog lists with no stock, a request below one stores
      one unit and any other request stores zero: the lower clamp runs first. */
  lemma UpdateOnSoldOutProduct(catalog: seq<Product>, cart: Cart, id: int, q: int)
    requires FindLine(cart, id).Some? && Lookup(catalog, id).Some?
    requires Lookup(catalog, id).value.stock == 0
    ensures UpdateQuantity(catalog, cart, id, q)[FindLine(cart, id).value].quantity == (if q < 1 then 1 else 0)
  {
  }

  /** Incrementing keeps the invariants. */
  lemma IncrementKeepsInvariants(catalog: seq<Product>, cart: Cart, id: int)
    requires UniqueIds(cart) && InStock(catalog, cart)
    ensures UniqueIds(IncrementQuantity(catalog, cart, id))
    ensures InStock(catalog, IncrementQuantity(catalog, cart, id))
  {
    var r := IncrementQuantity(catalog, cart, id);
    if r != cart {
      var i := FindLine(cart, id).value;
      SetAtKeepsUniqueIds(cart, r, i, r[i].quantity);
      assert LineInStock(catalog, r[i]);
      assert forall j :: 0 <= j < |r| && j != i ==> r[j] == cart[j];
    }
  }

  /** Decrementing keeps the invariants and never drops a line. */
  lemma DecrementKeepsInvariants(catalog: seq<Product>, cart: Cart, id: int)
    requires UniqueIds(cart) && InStock(catalog, cart)
    ensures UniqueIds(DecrementQuantity(cart, id))
    ensures InStock(catalog, DecrementQuantity(cart, id))
  {
    var r := DecrementQuantity(cart, id);
    forall j | 0 <= j < |r|
      ensures LineInStock(catalog, r[j])
    {
      assert LineInStock(catalog, cart[j]);
    }
  }

  /** Below the catalog's stock, an increment followed by a decrement gives the
      cart back. */
  lemma IncrementThenDecrement(catalog: seq<Product>, cart: Cart, id: int)
    requires FindLine(cart, id).Some? && Lookup(catalog, id).Some?
    requires 1 <= cart[FindLine(cart, id).value].quantity < Lookup(catalog, id).value.stock
    ensures DecrementQuantity(IncrementQuantity(catalog, cart, id), id) == cart
  {
    var i := FindLine(cart, id).value;
    var up := IncrementQuantity(catalog, cart, id);
    SetAtKeepsFind(cart, up, i, cart[i].quantity + 1, id);
    var down := DecrementQuantity(up, id);
    assert SetAt(up, down, i, cart[i].quantity);
    assert down == cart;
  }

  /** At or above the catalog's stock an increment changes nothing. */
  lemma IncrementAtCeiling(catalog: seq<Product>, cart: Cart, id: int)
    requires FindLine(cart, id).Some? && Lookup(catalog, id).Some?
    requires cart[FindLine(cart, id).value].quantity >= Lookup(catalog, id).value.stock
    ensures IncrementQuantity(catalog, cart, id) == cart
  {
  }
}
