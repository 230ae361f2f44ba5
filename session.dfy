/**
 * One visitor's session (`cart` and `order`) and the shop's request handlers
 * over it. Each handler is a method; what it renders or returns as JSON is a
 * small response datatype instead of a page.
 */
module Shop {
  import opened Maybe
  import Catalog
  import Cart

  /** The checkout form; a field the form did not send is absent (the form lookup yields nothing). */
  datatype Customer = Customer(
    firstName: Option<string>,
    lastName: Option<string>,
    email: Option<string>,
    phone: Option<string>,
    address: Option<string>,
    city: Option<string>,
    postalCode: Option<string>,
    paymentMethod: Option<string>
  )

  /** The order recorded at checkout: a copy of the cart, its total and the time stamp as text. */
  datatype Order = Order(customer: Customer, items: seq<Cart.LineItem>, total: int, orderDate: string)

  /** Where a redirect goes. */
  datatype Page = IndexPage | OrderSuccessPage

  /** The JSON answer of the add-to-cart endpoint: 404, or success with the new count. */
  datatype AddResponse = ProductNotFound | Added(cartCount: nat)

  datatype IndexView = IndexView(products: seq<Catalog.Product>, categories: seq<string>, selected: string, cartCount: nat)

  datatype CartView = CartView(items: seq<Cart.LineItem>, total: int, cartCount: nat)

  datatype CheckoutView = CheckoutRedirect(to: Page) | CheckoutForm(view: CartView)

  datatype OrderView = OrderRedirect(to: Page) | Receipt(order: Order)

  /** A well-formed cart built from a sound product list never has a negative total. */
  lemma TotalNonNegative(cart: seq<Cart.LineItem>, products: seq<Catalog.Product>)
    requires Catalog.Sound(products)
    requires Cart.WellFormed(cart) && Cart.MatchesCatalog(cart, products)
    ensures Cart.Total(cart) >= 0
  {
    forall k | 0 <= k < |cart| ensures cart[k].price >= 0 {
      assert Cart.Snapshot(cart[k], products);
      var j := Catalog.FindFirst(products, cart[k].id);
    }
    Cart.TotalNonNegative(cart);
  }

  class Session {
    /** The product list the cart handlers look ids up in: the shop's fixed catalog, set once. */
    const catalog: seq<Catalog.Product>
    var cart: seq<Cart.LineItem>
    var order: Option<Order>

    /** The cart keeps one item per product, positive quantities, and the catalog's names and prices. */
    ghost predicate Valid()
      reads this
    {
      Catalog.Sound(catalog) && Cart.WellFormed(cart) && Cart.MatchesCatalog(cart, catalog)
    }

    /** A new session: reading the cart starts from an empty cart, and no order has been placed. */
    constructor ()
      ensures Valid() && catalog == Catalog.Products && cart == [] && order == None
    {
      Catalog.CatalogInvariant();
      catalog := Catalog.Products;
      cart := [];
      order := None;
    }

    /** The index page: the category defaults to all products, and the badge shows the cart count. */
    method Index(category: Option<string>) returns (v: IndexView)
      ensures v.selected == category.GetOr(Catalog.AllCategories)
      ensures v.products == Catalog.ProductsFor(v.selected)
      ensures v.categories == Catalog.Categories
      ensures v.cartCount == |cart|
    {
      var selected := category.GetOr(Catalog.AllCategories);
      var products := if selected == Catalog.AllCategories then Catalog.Products
                      else Catalog.InCategory(Catalog.Products, selected);
      v := IndexView(products, Catalog.Categories, selected, |cart|);
    }

    /** Add one unit of a catalog product: 404 for an unknown id, else increment or append. */
    method AddToCart(productId: int) returns (r: AddResponse)
      requires Valid()
      modifies this
      ensures Valid() && order == old(order)
      ensures r.ProductNotFound? <==> Catalog.Find(catalog, productId).None?
      ensures r.ProductNotFound? ==> cart == old(cart)
      ensures r.Added? ==> cart == Cart.Add(old(cart), Catalog.Find(catalog, productId).value)
      ensures r.Added? ==> r.cartCount == |cart|
    {
      var found := Catalog.Find(catalog, productId);
      if found.None? {
        return ProductNotFound;
      }
      var product := found.value;
      assert product.id == productId;
      ghost var next := Cart.Add(cart, product);
      Cart.AddWellFormed(cart, product);
      Cart.AddSnapshots(cart, product, catalog);
      match Cart.IndexOf(cart, productId) {
        case Some(i) =>
          cart := cart[i := cart[i].(quantity := cart[i].quantity + 1)];
        case None =>
          cart := cart + [Cart.NewItem(product)];
      }
      assert cart == next;
      r := Added(|cart|);
    }

    /** Remove every item with this id and answer with the new count. */
    method RemoveFromCart(productId: int) returns (cartCount: nat)
      requires Valid()
      modifies this
      ensures Valid() && order == old(order)
      ensures cart == Cart.Without(old(cart), productId)
      ensures cartCount == |cart|
    {
      Cart.WithoutInvariant(cart, productId);
      Cart.WithoutSnapshots(cart, productId, catalog);
      cart := Cart.Without(cart, productId);
      cartCount := |cart|;
    }

    /** Set the quantity of an item in the cart; zero or less removes it, an absent id is ignored. */
    method UpdateQuantity(productId: int, quantity: Option<int>)
      requires Valid()
      modifies this
      ensures Valid() && order == old(order)
      ensures cart == Cart.Updated(old(cart), productId, Cart.Requested(quantity))
    {
      var q := Cart.Requested(quantity);
      Cart.UpdateWellFormed(cart, productId, q);
      Cart.UpdateSnapshots(cart, productId, q, catalog);
      match Cart.IndexOf(cart, productId) {
        case None =>
        case Some(i) =>
          if q <= 0 {
            cart := Cart.Without(cart, productId);
          } else {
            cart := cart[i := cart[i].(quantity := q)];
          }
      }
    }

    /** The cart page: the items, their total and the count. */
    method ViewCart() returns (v: CartView)
      requires Valid()
      ensures v.items == cart && v.cartCount == |cart|
      ensures v.total == Cart.Total(cart) && v.total >= 0
    {
      TotalNonNegative(cart, catalog);
      v := CartView(cart, Cart.Total(cart), |cart|);
    }

    /** The badge count endpoint: the number of distinct products in the cart. */
    method CartCount() returns (n: nat)
      requires Valid()
      ensures n == |cart| && n == |Cart.Ids(cart)|
    {
      Cart.CountIsDistinctProducts(cart);
      n := |cart|;
    }

    /** The checkout form (GET): an empty cart sends the visitor back to the index. */
    method CheckoutPage() returns (v: CheckoutView)
      ensures cart == [] <==> v == CheckoutRedirect(IndexPage)
      ensures cart != [] ==> v == CheckoutForm(CartView(cart, Cart.Total(cart), |cart|))
    {
      var total := Cart.Total(cart);
      if cart == [] {
        return CheckoutRedirect(IndexPage);
      }
      v := CheckoutForm(CartView(cart, total, |cart|));
    }

    /**
     * Submitting the checkout form (POST): an empty cart is refused and nothing changes;
     * otherwise the session records an order copying the cart and its total, then the cart is cleared.
     */
    method PlaceOrder(customer: Customer, orderDate: string) returns (to: Page)
      requires Valid()
      modifies this
      ensures Valid() && cart == []
      ensures old(cart) == [] ==> to == IndexPage && order == old(order)
      ensures old(cart) != [] ==> to == OrderSuccessPage &&
                                  order == Some(Order(customer, old(cart), Cart.Total(old(cart)), orderDate))
    {
      if cart == [] {
        return IndexPage;
      }
      order := Some(Order(customer, cart, Cart.Total(cart), orderDate));
      cart := [];
      to := OrderSuccessPage;
    }

    /** The order-success page: without a recorded order the visitor is sent to the index. */
    method OrderSuccess() returns (v: OrderView)
      ensures order.None? <==> v == OrderRedirect(IndexPage)
      ensures order.Some? ==> v == Receipt(order.value)
    {
      if order.None? {
        return OrderRedirect(IndexPage);
      }
      v := Receipt(order.value);
    }
  }
}
