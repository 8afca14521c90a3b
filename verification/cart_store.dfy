/** The product store: catalog, cart and the browser's persisted "cart" slot.
    Each store action runs a cart operation and, where the source reaches its
    save step, overwrites the slot with the cart as it now stands. Loading
    accepts a persisted cart only when every item passes validation. */
module CartStore {
  import opened Wrappers
  import opened Catalog
  import opened CartEngine
  import CartLaws

  /** One element of a parsed persisted array, reduced to what validation looks
      at: whether `product` is present and object-shaped, and whether `quantity`
      is a number. An object is taken to stand for the product it describes. */
  datatype RawItem = RawItem(product: Option<Product>, quantity: Option<int>)

  /** What parsing the persisted text yields. */
  datatype Payload = Unparsable | NotAnArray | Items(items: seq<RawItem>)

  /** The store: `slot` is the persisted "cart" entry, absent when never
      written or when it was cleared after failing validation. */
  datatype Store = Store(catalog: seq<Product>, cart: Cart, slot: Option<Payload>)

  /** The store at session start: nothing in the cart yet. */
  function Fresh(catalog: seq<Product>, slot: Option<Payload>): Store
  {
    Store(catalog, [], slot)
  }

  /** The payload a save writes: one item per line, in cart order. */
  function Encode(cart: Cart): (p: Payload)
    ensures p.Items? && |p.items| == |cart|
    ensures forall j :: 0 <= j < |cart| ==>
              p.items[j].product == Some(cart[j].product) && p.items[j].quantity == Some(cart[j].quantity)
  {
    Items(seq(|cart|, j requires 0 <= j < |cart| => RawItem(Some(cart[j].product), Some(cart[j].quantity))))
  }

  /** An item passes validation: it has an object-shaped product and a numeric
      quantity above zero. Identifiers are not checked for uniqueness. */
  predicate Acceptable(item: RawItem)
  {
    item.product.Some? && item.quantity.Some? && item.quantity.value > 0
  }

  /** Every item of the array passes validation. */
  predicate AllAcceptable(items: seq<RawItem>)
  {
    forall j :: 0 <= j < |items| ==> Acceptable(items[j])
  }

  /** The cart an accepted array stands for. */
  function Decode(items: seq<RawItem>): (cart: Cart)
    requires AllAcceptable(items)
    ensures |cart| == |items|
    ensures forall j :: 0 <= j < |items| ==>
              Some(cart[j].product) == items[j].product && Some(cart[j].quantity) == items[j].quantity
  {
    seq(|items|, j requires 0 <= j < |items| && Acceptable(items[j]) => Line(items[j].product.value, items[j].quantity.value))
  }

  /** Loading the persisted cart. An empty slot leaves the store as it is. A
      slot that parses to an array of acceptable items replaces the cart
      wholesale; anything else is discarded: the cart is kept and the slot
      emptied. */
  function Initialize(s: Store): (r: Store)
    ensures r.catalog == s.catalog
    ensures s.slot.None? ==> r == s
    ensures s.slot.Some? && s.slot.value.Items? && AllAcceptable(s.slot.value.items) ==>
              r.slot == s.slot && Encode(r.cart) == s.slot.value
    ensures s.slot.Some? && !(s.slot.value.Items? && AllAcceptable(s.slot.value.items)) ==>
              r.cart == s.cart && r.slot.None?
  {
    match s.slot
    case None => s
    case Some(Items(xs)) =>
      if AllAcceptable(xs) then
        var c := Decode(xs);
        assert Encode(c).items == xs;
        s.(cart := c)
      else
        s.(slot := None)
    case Some(_) => s.(slot := None)
  }

  /** The slot holds exactly the cart, or nothing is stored yet and the cart
      is empty. */
  ghost predicate Synced(s: Store)
  {
    s.slot == Some(Encode(s.cart)) || (s.slot.None? && s.cart == [])
  }

  /** `saveCart`: write the whole cart to the slot. */
  function Save(s: Store): (r: Store)
    ensures r.slot == Some(Encode(s.cart))
    ensures Synced(r) && r.cart == s.cart && r.catalog == s.catalog
  {
    s.(slot := Some(Encode(s.cart)))
  }

  /** `addToCart` on the store: a failure changes nothing, a success saves. */
  function Add(s: Store, product: Product): (r: Result<Store, CartError>)
    ensures r.Failure? <==> HeldQuantity(s.cart, product.id) >= product.stock
    ensures r.Success? ==> r.value.cart == AddToCart(s.cart, product).value
    ensures r.Success? ==> Synced(r.value) && r.value.catalog == s.catalog
                           && ItemsCount(r.value.cart) == ItemsCount(s.cart) + 1
  {
    match AddToCart(s.cart, product)
    case Failure(e) => Failure(e)
    case Success(c) =>
      CartLaws.AddMovesSums(s.cart, product);
      Success(Save(s.(cart := c)))
  }

  /** `removeFromCart` on the store: always saves. */
  function Remove(s: Store, id: int): (r: Store)
    ensures r.cart == RemoveFromCart(s.cart, id)
    ensures r.slot == Some(Encode(r.cart))
    ensures Synced(r) && r.catalog == s.catalog
    ensures forall j :: 0 <= j < |r.cart| ==> r.cart[j].product.id != id
  {
    Save(s.(cart := RemoveFromCart(s.cart, id)))
  }

  /** `updateQuantity` on the store: saves only when both the line and the
      catalog product exist; the early return skips the save. */
  function Update(s: Store, id: int, q: int): (r: Store)
    ensures r.cart == UpdateQuantity(s.catalog, s.cart, id, q)
    ensures FindLine(s.cart, id).None? || Lookup(s.catalog, id).None? ==> r == s
    ensures FindLine(s.cart, id).Some? && Lookup(s.catalog, id).Some? ==> Synced(r)
    ensures r.catalog == s.catalog
  {
    if FindLine(s.cart, id).Some? && Lookup(s.catalog, id).Some? then
      Save(s.(cart := UpdateQuantity(s.catalog, s.cart, id, q)))
    else
      s
  }

  /** `incrementQuantity` on the store: saves only when a unit was added. */
  function Increment(s: Store, id: int): (r: Store)
    ensures r.cart == IncrementQuantity(s.catalog, s.cart, id)
    ensures r.cart == s.cart ==> r == s
    ensures r.cart != s.cart ==> Synced(r)
    ensures r.catalog == s.catalog
  {
    var c := IncrementQuantity(s.catalog, s.cart, id);
    if c != s.cart then Save(s.(cart := c)) else s
  }

  /** `decrementQuantity` on the store: saves only when a unit was taken. */
  function Decrement(s: Store, id: int): (r: Store)
    ensures r.cart == DecrementQuantity(s.cart, id)
    ensures r.cart == s.cart ==> r == s
    ensures r.cart != s.cart ==> Synced(r) && ItemsCount(r.cart) == ItemsCount(s.cart) - 1
    ensures r.catalog == s.catalog && |r.cart| == |s.cart|
  {
    var c := DecrementQuantity(s.cart, id);
    if c != s.cart then
      var i := FindLine(s.cart, id).value;
      CartLaws.CountSetAt(s.cart, c, i, s.cart[i].quantity - 1);
      Save(s.(cart := c))
    else
      s
  }

  /** `clearCart` on the store: empties the cart and saves. */
  function Clear(s: Store): (r: Store)
    ensures r.slot == Some(Encode(r.cart))
    ensures Synced(r) && r.catalog == s.catalog
    ensures ItemsCount(r.cart) == 0 && CartTotal(r.cart) == 0 && |r.cart| == 0
  {
    Save(s.(cart := ClearCart()))
  }

  /** The actions the interface can take on the store. */
  datatype Action =
    | AddProduct(product: Product)
    | RemoveProduct(id: int)
    | SetQuantity(id: int, q: int)
    | Increase(id: int)
    | Decrease(id: int)
    | Empty

  /** One action; a failed add leaves the store as it was. */
  function Step(s: Store, a: Action): Store
  {
    match a
    case AddProduct(p) => (match Add(s, p) case Success(t) => t case Failure(_) => s)
    case RemoveProduct(id) => Remove(s, id)
    case SetQuantity(id, q) => Update(s, id, q)
    case Increase(id) => Increment(s, id)
    case Decrease(id) => Decrement(s, id)
    case Empty => Clear(s)
  }

  /** The store invariant: one line per product, every line within the
      catalog's stock, and the slot in step with the cart. */
  ghost predicate Valid(s: Store)
  {
    UniqueIds(s.cart) && InStock(s.catalog, s.cart) && Synced(s)
  }

  /** What the interface must respect for the invariant to survive: adds pass
      the catalog's own record. Every other action is allowed as it comes. */
  ghost predicate Allowed(catalog: seq<Product>, a: Action)
  {
    match a
    case AddProduct(p) => CartLaws.AgreesWithCatalog(catalog, p)
    case _ => true
  }

  /** Every allowed action keeps the store valid. */
  lemma StepKeepsValid(s: Store, a: Action)
    requires Valid(s) && Allowed(s.catalog, a)
    ensures Valid(Step(s, a))
  {
    match a
    case AddProduct(p) =>
      if AddToCart(s.cart, p).Success? {
        CartLaws.AddKeepsUniqueIds(s.cart, p);
        CartLaws.AddKeepsInStock(s.catalog, s.cart, p);
      }
    case RemoveProduct(id) =>
      CartLaws.RemoveKeepsInvariants(s.catalog, s.cart, id);
    case SetQuantity(id, q) =>
      CartLaws.UpdateKeepsInvariants(s.catalog, s.cart, id, q);
    case Increase(id) =>
      CartLaws.IncrementKeepsInvariants(s.catalog, s.cart, id);
    case Decrease(id) =>
      CartLaws.DecrementKeepsInvariants(s.catalog, s.cart, id);
    case Empty =>
  }

  /** Actions applied in order. */
  function Run(s: Store, actions: seq<Action>): Store
    decreases |actions|
  {
    if |actions| == 0 then s else Run(Step(s, actions[0]), actions[1..])
  }

  /** Saving and loading into a fresh session gives back a cart whose
      quantities are all positive, line for line and in order. */
  lemma ReloadRestoresCart(s: Store)
    requires Synced(s)
    requires forall j :: 0 <= j < |s.cart| ==> s.cart[j].quantity > 0
    ensures Initialize(Fresh(s.catalog, s.slot)).cart == s.cart
    ensures Initialize(Fresh(s.catalog, s.slot)).slot == s.slot
  {
    var xs := Encode(s.cart).items;
    assert AllAcceptable(xs);
    var c := Initialize(Fresh(s.catalog, s.slot)).cart;
    assert Encode(c) == Encode(s.cart);
    assert forall j :: 0 <= j < |c| ==> c[j] == s.cart[j];
  }

  /** One line with a quantity that is not positive makes a load discard the
      whole persisted cart: the session starts empty and the slot is cleared. */
  lemma ReloadDiscardsWholeCart(s: Store, k: int)
    requires Synced(s)
    requires 0 <= k < |s.cart| && s.cart[k].quantity <= 0
    ensures Initialize(Fresh(s.catalog, s.slot)).cart == []
    ensures Initialize(Fresh(s.catalog, s.slot)).slot.None?
  {
    assert !Acceptable(Encode(s.cart).items[k]);
  }

  /** A session that finds nothing stored, or discards what it finds, starts
      valid: an empty cart and an empty slot. */
  lemma FreshIsValid(catalog: seq<Product>, slot: Option<Payload>)
    requires slot.None? || !(slot.value.Items? && AllAcceptable(slot.value.items))
    ensures Initialize(Fresh(catalog, slot)).cart == []
    ensures Initialize(Fresh(catalog, slot)).slot.None?
    ensures Valid(Initialize(Fresh(catalog, slot)))
  {
  }

  /** Loading does not check identifiers: a stored array with two lines for the
      same product is accepted, and the session starts with a cart that holds
      two lines for one id. */
  lemma LoadAcceptsDuplicateIds()
    ensures var lamp := Product(7, "Lamp", 1999, "", "", "Home", 5, 40);
            var item := RawItem(Some(lamp), Some(1));
            var r := Initialize(Fresh([lamp], Some(Items([item, item]))));
            && r.slot == Some(Items([item, item]))
            && r.cart == [Line(lamp, 1), Line(lamp, 1)]
            && !UniqueIds(r.cart)
  {
    var lamp := Product(7, "Lamp", 1999, "", "", "Home", 5, 40);
    var item := RawItem(Some(lamp), Some(1));
    var r := Initialize(Fresh([lamp], Some(Items([item, item]))));
    assert AllAcceptable([item, item]);
    assert r.cart[0] == Line(lamp, 1) && r.cart[1] == Line(lamp, 1);
  }

  /** A valid session survives any run of allowed actions and a reload: the
      fresh session's cart is the one left by the last action. */
  lemma {:induction false} RunThenReload(s: Store, actions: seq<Action>)
    requires Valid(s)
    requires forall k :: 0 <= k < |actions| ==> Allowed(s.catalog, actions[k])
    ensures Valid(Run(s, actions))
    ensures Initialize(Fresh(s.catalog, Run(s, actions).slot)).cart == Run(s, actions).cart
    decreases |actions|
  {
    if |actions| == 0 {
      ReloadRestoresCart(s);
    } else {
      StepKeepsValid(s, actions[0]);
      var t := Step(s, actions[0]);
      assert t.catalog == s.catalog by {
        match actions[0]
        case AddProduct(p) =>
        case _ =>
      }
      forall k | 0 <= k < |actions| - 1
        ensures Allowed(t.catalog, actions[1..][k])
      {
        assert actions[1..][k] == actions[k + 1];
      }
      RunThenReload(t, actions[1..]);
    }
  }

  /** Clearing and then reloading gives an empty cart with nothing counted and
      nothing owed. */
  lemma ClearThenReload(s: Store)
    ensures var r := Initialize(Fresh(s.catalog, Clear(s).slot));
            r.cart == [] && ItemsCount(r.cart) == 0 && CartTotal(r.cart) == 0
  {
    ReloadRestoresCart(Clear(s));
  }
}
