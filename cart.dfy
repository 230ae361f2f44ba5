/**
 * The session cart as a value: an ordered list of line items keyed by product id,
 * and the transformations the cart endpoints apply to it.
 */
module Cart {
  import opened Maybe
  import Catalog

  /**
   * One entry of the cart. `name` and `price` are copied from the catalog when the
   * product is first added and are never refreshed afterwards.
   */
  datatype LineItem = LineItem(id: int, name: string, price: int, quantity: int)

  /** The line item a first add creates: the catalog's name and price, quantity 1. */
  function NewItem(product: Catalog.Product): LineItem {
    LineItem(product.id, product.name, product.price, 1)
  }

  function Subtotal(item: LineItem): int {
    item.price * item.quantity
  }

  /** The cart total: the sum over all items of price times quantity. */
  function Total(cart: seq<LineItem>): int {
    if cart == [] then 0 else Subtotal(cart[0]) + Total(cart[1..])
  }

  /** The empty cart costs nothing, and a cart of non-negative prices and quantities never costs less. */
  lemma {:induction false} TotalNonNegative(cart: seq<LineItem>)
    requires forall k :: 0 <= k < |cart| ==> cart[k].price >= 0 && cart[k].quantity >= 0
    ensures Total(cart) >= 0
    ensures cart == [] ==> Total(cart) == 0
  {
    if cart != [] {
      assert Subtotal(cart[0]) >= 0 by {
        var p, q := cart[0].price, cart[0].quantity;
        assert p * q >= 0;
      }
      assert forall k :: 0 <= k < |cart[1..]| ==> cart[1..][k] == cart[k + 1];
      TotalNonNegative(cart[1..]);
    }
  }

  /** The set of product ids in the cart. */
  function Ids(cart: seq<LineItem>): (r: set<int>)
    ensures forall k :: 0 <= k < |cart| ==> cart[k].id in r
  {
    if cart == [] then {} else {cart[0].id} + Ids(cart[1..])
  }

  lemma {:induction false} IdsAppend(a: seq<LineItem>, b: seq<LineItem>)
    ensures Ids(a + b) == Ids(a) + Ids(b)
  {
    if a == [] {
      assert a + b == b;
    } else {
      assert (a + b)[1..] == a[1..] + b;
      IdsAppend(a[1..], b);
    }
  }

  /** An id that no item carries is not among the cart's ids. */
  lemma {:induction false} AbsentNotInIds(cart: seq<LineItem>, id: int)
    requires forall k :: 0 <= k < |cart| ==> cart[k].id != id
    ensures id !in Ids(cart)
  {
    if cart != [] {
      assert forall k :: 0 <= k < |cart[1..]| ==> cart[1..][k].id == cart[k + 1].id;
      AbsentNotInIds(cart[1..], id);
    }
  }

  /** The cart invariant: at most one line item per product id, and every quantity at least 1. */
  predicate WellFormed(cart: seq<LineItem>) {
    && (forall i, j :: 0 <= i < j < |cart| ==> cart[i].id != cart[j].id)
    && (forall k :: 0 <= k < |cart| ==> cart[k].quantity >= 1)
  }

  /** An item's name and price are those the catalog has for its id. */
  predicate Snapshot(item: LineItem, products: seq<Catalog.Product>) {
    var p := Catalog.Find(products, item.id);
    p.Some? && p.value.name == item.name && p.value.price == item.price
  }

  /** Every item of the cart is a snapshot of the catalog entry with its id. */
  predicate MatchesCatalog(cart: seq<LineItem>, products: seq<Catalog.Product>) {
    forall k :: 0 <= k < |cart| ==> Snapshot(cart[k], products)
  }

  /** Position of the first item with this id, or none when no item has it. */
  function IndexOf(cart: seq<LineItem>, id: int): (r: Option<nat>)
    ensures r.None? <==> id !in Ids(cart)
    ensures r.Some? ==> r.value < |cart| && cart[r.value].id == id
    ensures r.Some? ==> forall k :: 0 <= k < r.value ==> cart[k].id != id
  {
    if cart == [] then None
    else if cart[0].id == id then Some(0)
    else
      match IndexOf(cart[1..], id)
      case None => None
      case Some(k) => Some(k + 1)
  }

  /** In a well-formed cart the item found for an id is the only one with it. */
  lemma IndexOfWellFormed(cart: seq<LineItem>, i: nat)
    requires WellFormed(cart) && i < |cart|
    ensures IndexOf(cart, cart[i].id) == Some(i)
  {
  }

  /** In a well-formed cart the id of the item at `i` occurs neither before nor after it. */
  lemma UniqueAround(cart: seq<LineItem>, i: nat)
    requires WellFormed(cart) && i < |cart|
    ensures cart[i].id !in Ids(cart[..i]) && cart[i].id !in Ids(cart[i + 1..])
  {
    var before, after := cart[..i], cart[i + 1..];
    assert forall k :: 0 <= k < |before| ==> before[k] == cart[k];
    AbsentNotInIds(before, cart[i].id);
    assert forall k :: 0 <= k < |after| ==> after[k] == cart[i + 1 + k];
    AbsentNotInIds(after, cart[i].id);
  }

  /** Replacing one item by another with the same id keeps the cart well-formed if the new quantity is positive. */
  lemma ReplaceWellFormed(cart: seq<LineItem>, i: nat, item: LineItem)
    requires WellFormed(cart) && i < |cart| && item.id == cart[i].id && item.quantity >= 1
    ensures WellFormed(cart[i := item])
  {
  }

  /** Replacing one item by another with the same id, name and price keeps the snapshots. */
  lemma ReplaceSnapshots(cart: seq<LineItem>, i: nat, item: LineItem, products: seq<Catalog.Product>)
    requires MatchesCatalog(cart, products) && i < |cart|
    requires item.id == cart[i].id && item.name == cart[i].name && item.price == cart[i].price
    ensures MatchesCatalog(cart[i := item], products)
  {
    assert Snapshot(cart[i], products);
  }

  // ---------------------------------------------------------------------------
  // Total

  lemma {:induction false} TotalAppend(a: seq<LineItem>, b: seq<LineItem>)
    ensures Total(a + b) == Total(a) + Total(b)
  {
    if a == [] {
      assert a + b == b;
    } else {
      assert (a + b)[1..] == a[1..] + b;
      TotalAppend(a[1..], b);
    }
  }

  /** Replacing one item changes the total by exactly the difference of the two subtotals. */
  lemma {:induction false} TotalReplace(cart: seq<LineItem>, i: nat, item: LineItem)
    requires i < |cart|
    ensures Total(cart[i := item]) == Total(cart) - Subtotal(cart[i]) + Subtotal(item)
  {
    if i > 0 {
      assert cart[i := item][1..] == cart[1..][i - 1 := item];
      TotalReplace(cart[1..], i - 1, item);
    }
  }

  // ---------------------------------------------------------------------------
  // Remove: keep the items whose id differs, in order

  function Without(cart: seq<LineItem>, id: int): (r: seq<LineItem>)
    ensures |r| <= |cart|
  {
    if cart == [] then []
    else (if cart[0].id == id then [] else [cart[0]]) + Without(cart[1..], id)
  }

  /** Remove keeps exactly the items whose id differs. */
  lemma {:induction false} WithoutMembers(cart: seq<LineItem>, id: int)
    ensures forall item :: item in Without(cart, id) <==> item in cart && item.id != id
  {
    if cart != [] {
      WithoutMembers(cart[1..], id);
      assert cart == [cart[0]] + cart[1..];
    }
  }

  lemma {:induction false} WithoutAppend(a: seq<LineItem>, b: seq<LineItem>, id: int)
    ensures Without(a + b, id) == Without(a, id) + Without(b, id)
  {
    if a == [] {
      assert a + b == b;
    } else {
      assert (a + b)[1..] == a[1..] + b;
      WithoutAppend(a[1..], b, id);
    }
  }

  /** Removing an id that is not in the cart is a no-op. */
  lemma {:induction false} WithoutAbsent(cart: seq<LineItem>, id: int)
    requires id !in Ids(cart)
    ensures Without(cart, id) == cart
  {
    if cart != [] {
      WithoutAbsent(cart[1..], id);
    }
  }

  /** Remove works item by item, so it can be split around any position. */
  lemma WithoutSplit(cart: seq<LineItem>, i: nat, id: int)
    requires i < |cart|
    ensures Without(cart, id) ==
            Without(cart[..i], id) + Without([cart[i]], id) + Without(cart[i + 1..], id)
  {
    assert cart == cart[..i] + ([cart[i]] + cart[i + 1..]);
    WithoutAppend(cart[..i], [cart[i]] + cart[i + 1..], id);
    WithoutAppend([cart[i]], cart[i + 1..], id);
  }

  /** Removing the id of the item at `i` deletes exactly that item and keeps the others in order. */
  lemma WithoutPresent(cart: seq<LineItem>, i: nat)
    requires WellFormed(cart) && i < |cart|
    ensures Without(cart, cart[i].id) == cart[..i] + cart[i + 1..]
  {
    var id := cart[i].id;
    WithoutSplit(cart, i, id);
    assert Without([cart[i]], id) == [] by {
      assert [cart[i]][1..] == [];
    }
    UniqueAround(cart, i);
    WithoutAbsent(cart[..i], id);
    WithoutAbsent(cart[i + 1..], id);
  }

  /** Deleting one item keeps a cart well-formed. */
  lemma DeleteWellFormed(cart: seq<LineItem>, i: nat)
    requires WellFormed(cart) && i < |cart|
    ensures WellFormed(cart[..i] + cart[i + 1..])
  {
    var r := cart[..i] + cart[i + 1..];
    assert forall k :: 0 <= k < |r| ==> r[k] == if k < i then cart[k] else cart[k + 1];
  }

  /** Remove keeps the invariant; the count drops by one exactly when the id was present. */
  lemma WithoutInvariant(cart: seq<LineItem>, id: int)
    requires WellFormed(cart)
    ensures WellFormed(Without(cart, id))
    ensures id !in Ids(Without(cart, id))
    ensures |Without(cart, id)| == if id in Ids(cart) then |cart| - 1 else |cart|
  {
    match IndexOf(cart, id)
    case None =>
      WithoutAbsent(cart, id);
    case Some(i) =>
      WithoutPresent(cart, i);
      DeleteWellFormed(cart, i);
      UniqueAround(cart, i);
      IdsAppend(cart[..i], cart[i + 1..]);
  }

  /** Remove keeps every remaining item's catalog snapshot. */
  lemma {:induction false} WithoutSnapshots(cart: seq<LineItem>, id: int, products: seq<Catalog.Product>)
    requires MatchesCatalog(cart, products)
    ensures MatchesCatalog(Without(cart, id), products)
  {
    if cart != [] {
      assert Snapshot(cart[0], products);
      assert MatchesCatalog(cart[1..], products) by {
        assert forall k :: 0 <= k < |cart[1..]| ==> cart[1..][k] == cart[k + 1];
      }
      WithoutSnapshots(cart[1..], id, products);
    }
  }

  /** The total splits around any position. */
  lemma TotalSplit(cart: seq<LineItem>, i: nat)
    requires i < |cart|
    ensures Total(cart) == Total(cart[..i]) + Subtotal(cart[i]) + Total(cart[i + 1..])
  {
    assert cart == cart[..i] + ([cart[i]] + cart[i + 1..]);
    TotalAppend(cart[..i], [cart[i]] + cart[i + 1..]);
    TotalAppend([cart[i]], cart[i + 1..]);
    assert Total([cart[i]]) == Subtotal(cart[i]) by {
      assert [cart[i]][1..] == [];
    }
  }

  /** Removing the item at `i` lowers the total by that item's subtotal. */
  lemma TotalWithout(cart: seq<LineItem>, i: nat)
    requires WellFormed(cart) && i < |cart|
    ensures Total(Without(cart, cart[i].id)) == Total(cart) - Subtotal(cart[i])
  {
    WithoutPresent(cart, i);
    TotalAppend(cart[..i], cart[i + 1..]);
    TotalSplit(cart, i);
  }

  // ---------------------------------------------------------------------------
  // Add: increment the item with the product's id, or append a new one

  function Add(cart: seq<LineItem>, product: Catalog.Product): (r: seq<LineItem>)
  {
    match IndexOf(cart, product.id)
    case Some(i) => cart[i := cart[i].(quantity := cart[i].quantity + 1)]
    case None => cart + [NewItem(product)]
  }

  /** Adding a product already in the cart increments only that item's quantity. */
  lemma AddExisting(cart: seq<LineItem>, product: Catalog.Product, i: nat)
    requires WellFormed(cart) && i < |cart| && cart[i].id == product.id
    ensures |Add(cart, product)| == |cart|
    ensures Add(cart, product)[i].quantity == cart[i].quantity + 1
    ensures Add(cart, product)[i].(quantity := cart[i].quantity) == cart[i]
    ensures forall k :: 0 <= k < |cart| && k != i ==> Add(cart, product)[k] == cart[k]
  {
    IndexOfWellFormed(cart, i);
  }

  /** Adding a product not yet in the cart appends one item with quantity 1 and the catalog's name and price. */
  lemma AddNew(cart: seq<LineItem>, product: Catalog.Product)
    requires product.id !in Ids(cart)
    ensures Add(cart, product) == cart + [LineItem(product.id, product.name, product.price, 1)]
    ensures |Add(cart, product)| == |cart| + 1
  {
  }

  /** Add keeps the invariant: still one item per id, all quantities positive. */
  lemma AddWellFormed(cart: seq<LineItem>, product: Catalog.Product)
    requires WellFormed(cart)
    ensures WellFormed(Add(cart, product))
  {
    match IndexOf(cart, product.id)
    case Some(i) =>
      ReplaceWellFormed(cart, i, cart[i].(quantity := cart[i].quantity + 1));
    case None =>
      assert forall k :: 0 <= k < |cart| ==> cart[k].id != product.id;
  }

  /** Add keeps the snapshots when the product is the catalog's entry for its id. */
  lemma AddSnapshots(cart: seq<LineItem>, product: Catalog.Product, products: seq<Catalog.Product>)
    requires MatchesCatalog(cart, products) && Catalog.Find(products, product.id) == Some(product)
    ensures MatchesCatalog(Add(cart, product), products)
  {
    match IndexOf(cart, product.id)
    case Some(i) =>
      ReplaceSnapshots(cart, i, cart[i].(quantity := cart[i].quantity + 1), products);
    case None =>
      assert Snapshot(NewItem(product), products);
  }

  /** Each add raises the total by the catalog price of the product. */
  lemma AddTotal(cart: seq<LineItem>, product: Catalog.Product, products: seq<Catalog.Product>)
    requires MatchesCatalog(cart, products)
    requires Catalog.Find(products, product.id) == Some(product)
    ensures Total(Add(cart, product)) == Total(cart) + product.price
  {
    match IndexOf(cart, product.id)
    case Some(i) =>
      assert cart[i].price == product.price by {
        assert Snapshot(cart[i], products);
      }
      IncrementTotal(cart, i);
    case None =>
      AppendTotal(cart, NewItem(product));
  }

  lemma IncrementTotal(cart: seq<LineItem>, i: nat)
    requires i < |cart|
    ensures Total(cart[i := cart[i].(quantity := cart[i].quantity + 1)]) == Total(cart) + cart[i].price
  {
    var item := cart[i].(quantity := cart[i].quantity + 1);
    TotalReplace(cart, i, item);
    assert Subtotal(item) == Subtotal(cart[i]) + cart[i].price by {
      var p, q := cart[i].price, cart[i].quantity;
      assert p * (q + 1) == p * q + p;
    }
  }

  lemma AppendTotal(cart: seq<LineItem>, item: LineItem)
    ensures Total(cart + [item]) == Total(cart) + Subtotal(item)
  {
    TotalAppend(cart, [item]);
    assert [item][1..] == [];
  }

  /** The cart after `n` successive adds of the same product. */
  function AddTimes(cart: seq<LineItem>, product: Catalog.Product, n: nat): seq<LineItem> {
    if n == 0 then cart else Add(AddTimes(cart, product, n - 1), product)
  }

  /** `n` adds of a product not yet in the cart leave exactly one item for it, with quantity `n`, at the end. */
  lemma {:induction false} AddRepeated(cart: seq<LineItem>, product: Catalog.Product, n: nat)
    requires WellFormed(cart) && product.id !in Ids(cart) && n >= 1
    ensures AddTimes(cart, product, n) == cart + [LineItem(product.id, product.name, product.price, n)]
  {
    if n > 1 {
      AddRepeated(cart, product, n - 1);
      var before := cart + [LineItem(product.id, product.name, product.price, n - 1)];
      assert forall k :: 0 <= k < |cart| ==> cart[k].id != product.id;
      assert WellFormed(before);
      AddExisting(before, product, |cart|);
    }
  }

  /** Removing a product just added gives the cart with that product removed. */
  lemma AddThenRemove(cart: seq<LineItem>, product: Catalog.Product)
    requires WellFormed(cart)
    ensures Without(Add(cart, product), product.id) == Without(cart, product.id)
    ensures product.id !in Ids(cart) ==> Without(Add(cart, product), product.id) == cart
  {
    var id := product.id;
    match IndexOf(cart, id)
    case Some(i) =>
      var r := Add(cart, product);
      AddWellFormed(cart, product);
      WithoutPresent(r, i);
      WithoutPresent(cart, i);
      assert r[..i] == cart[..i] && r[i + 1..] == cart[i + 1..];
    case None =>
      WithoutAppend(cart, [NewItem(product)], id);
      assert [NewItem(product)][1..] == [];
      WithoutAbsent(cart, id);
  }

  // ---------------------------------------------------------------------------
  // Update quantity

  /** The quantity an update request asks for; a request without one means 1. */
  function Requested(quantity: Option<int>): (q: int)
    ensures quantity.None? ==> q == 1
    ensures quantity.Some? ==> q == quantity.value
  {
    quantity.GetOr(1)
  }

  function Updated(cart: seq<LineItem>, id: int, quantity: int): (r: seq<LineItem>)
  {
    match IndexOf(cart, id)
    case None => cart
    case Some(i) =>
      if quantity <= 0 then Without(cart, id)
      else cart[i := cart[i].(quantity := quantity)]
  }

  /** An update for an id that is not in the cart changes nothing. */
  lemma UpdateAbsent(cart: seq<LineItem>, id: int, quantity: int)
    requires id !in Ids(cart)
    ensures Updated(cart, id, quantity) == cart
  {
  }

  /** A quantity of zero or less removes the item, whether or not it was present. */
  lemma UpdateNonPositive(cart: seq<LineItem>, id: int, quantity: int)
    requires quantity <= 0
    ensures Updated(cart, id, quantity) == Without(cart, id)
  {
    if IndexOf(cart, id).None? {
      WithoutAbsent(cart, id);
    }
  }

  /** A positive quantity replaces that item's quantity and nothing else. */
  lemma UpdatePositive(cart: seq<LineItem>, i: nat, quantity: int)
    requires WellFormed(cart) && i < |cart| && quantity > 0
    ensures |Updated(cart, cart[i].id, quantity)| == |cart|
    ensures Updated(cart, cart[i].id, quantity)[i].quantity == quantity
    ensures Updated(cart, cart[i].id, quantity)[i].(quantity := cart[i].quantity) == cart[i]
    ensures forall k :: 0 <= k < |cart| && k != i ==> Updated(cart, cart[i].id, quantity)[k] == cart[k]
  {
    IndexOfWellFormed(cart, i);
  }

  /** Update keeps the invariant. */
  lemma UpdateWellFormed(cart: seq<LineItem>, id: int, quantity: int)
    requires WellFormed(cart)
    ensures WellFormed(Updated(cart, id, quantity))
  {
    match IndexOf(cart, id)
    case None =>
    case Some(i) =>
      if quantity <= 0 {
        WithoutInvariant(cart, id);
      } else {
        ReplaceWellFormed(cart, i, cart[i].(quantity := quantity));
      }
  }

  /** Update keeps the snapshots. */
  lemma UpdateSnapshots(cart: seq<LineItem>, id: int, quantity: int, products: seq<Catalog.Product>)
    requires MatchesCatalog(cart, products)
    ensures MatchesCatalog(Updated(cart, id, quantity), products)
  {
    match IndexOf(cart, id)
    case None =>
    case Some(i) =>
      if quantity <= 0 {
        WithoutSnapshots(cart, id, products);
      } else {
        ReplaceSnapshots(cart, i, cart[i].(quantity := quantity), products);
      }
  }

  /** Setting the quantity of the item at `i` changes the total by its price times the change. */
  lemma UpdateTotal(cart: seq<LineItem>, i: nat, quantity: int)
    requires WellFormed(cart) && i < |cart|
    ensures Total(Updated(cart, cart[i].id, quantity)) ==
            if quantity <= 0 then Total(cart) - Subtotal(cart[i])
            else Total(cart) + cart[i].price * (quantity - cart[i].quantity)
  {
    IndexOfWellFormed(cart, i);
    if quantity <= 0 {
      TotalWithout(cart, i);
    } else {
      SetQuantityTotal(cart, i, quantity);
    }
  }

  lemma SetQuantityTotal(cart: seq<LineItem>, i: nat, quantity: int)
    requires i < |cart|
    ensures Total(cart[i := cart[i].(quantity := quantity)]) ==
            Total(cart) + cart[i].price * (quantity - cart[i].quantity)
  {
    var item := cart[i].(quantity := quantity);
    TotalReplace(cart, i, item);
    assert Subtotal(item) - Subtotal(cart[i]) == cart[i].price * (quantity - cart[i].quantity);
  }

  // ---------------------------------------------------------------------------
  // Count: the number of items

  /** The badge count (the number of items) of a well-formed cart is the number of distinct products in it. */
  lemma {:induction false} CountIsDistinctProducts(cart: seq<LineItem>)
    requires WellFormed(cart)
    ensures |Ids(cart)| == |cart|
  {
    if cart != [] {
      var rest := cart[1..];
      assert WellFormed(rest) by {
        assert forall k :: 0 <= k < |rest| ==> rest[k] == cart[k + 1];
      }
      CountIsDistinctProducts(rest);
      UniqueAround(cart, 0);
    }
  }
}
