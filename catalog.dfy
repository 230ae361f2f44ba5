/**
 * The shop's fixed product catalog and the two read-only operations over it:
 * looking a product up by id and filtering by category.
 */
module Catalog {
  import opened Maybe

  datatype Product = Product(
    id: int,
    name: string,
    price: int,          // whole baht; the catalog's prices are integers
    category: string,
    description: string,
    image: string
  )

  /** The pseudo-category that selects every product; also the default of the index page. */
  const AllCategories: string := "ทั้งหมด"

  const Categories: seq<string> := [AllCategories, "อิเล็กทรอนิกส์", "คอมพิวเตอร์", "กล้อง"]

  const Products: seq<Product> := [
    Product(1, "iPhone 15 Pro Max", 35999, "อิเล็กทรอนิกส์", "สมาร์ทโฟนรุ่นล่าสุด ปี 2024", "product_1.png"),
    Product(2, "Samsung Galaxy S24", 28999, "อิเล็กทรอนิกส์", "มือถือแฟลกชิปตัวท็อป", "product_2.png"),
    Product(3, "MacBook Pro M3", 59999, "คอมพิวเตอร์", "แล็ปท็อปสำหรับมืออาชีพ", "product_3.png"),
    Product(4, "Dell XPS 15", 49999, "คอมพิวเตอร์", "โน้ตบุ๊กพัฒนาแอปพลิเคชัน", "product_4.png"),
    Product(5, "Canon EOS R5", 119999, "กล้อง", "กล้องมิลเรอร์เลสระดับมืออาชีพ", "product_5.png"),
    Product(6, "Sony Alpha A7 IV", 99999, "กล้อง", "กล้องดิจิทัลเต็มเฟรม", "product_6.png")
  ]

  /** No two products share an id. */
  predicate UniqueIds(products: seq<Product>) {
    forall i, j :: 0 <= i < j < |products| ==> products[i].id != products[j].id
  }

  /** What the cart relies on in a product list: unique ids and no negative price. */
  predicate Sound(products: seq<Product>) {
    UniqueIds(products) && forall k :: 0 <= k < |products| ==> products[k].price >= 0
  }

  /** The catalog's data invariant: unique ids, non-negative prices, each product in a listed category. */
  lemma CatalogInvariant()
    ensures Sound(Products)
    ensures forall k :: 0 <= k < |Products| ==> Products[k].category in Categories[1..]
  {
  }

  /**
   * The first product with the given id, or none when the catalog has no such id.
   */
  function Find(products: seq<Product>, id: int): (r: Option<Product>)
    ensures r.None? <==> forall k :: 0 <= k < |products| ==> products[k].id != id
    ensures r.Some? ==> r.value.id == id
  {
    if products == [] then None
    else if products[0].id == id then Some(products[0])
    else
      var r := Find(products[1..], id);
      assert r.None? ==> forall k :: 1 <= k < |products| ==> products[1..][k - 1] == products[k];
      r
  }

  /** The product found is the first one with that id: it is in the list and nothing before it matches. */
  lemma {:induction false} FindFirst(products: seq<Product>, id: int) returns (k: nat)
    requires Find(products, id).Some?
    ensures k < |products| && products[k] == Find(products, id).value
    ensures forall j :: 0 <= j < k ==> products[j].id != id
  {
    if products[0].id == id {
      k := 0;
    } else {
      var k' := FindFirst(products[1..], id);
      k := k' + 1;
    }
  }

  /** With unique ids, the product found is exactly the one at that id's position. */
  lemma {:induction false} FindUnique(products: seq<Product>, k: nat)
    requires UniqueIds(products) && k < |products|
    ensures Find(products, products[k].id) == Some(products[k])
  {
    if k > 0 {
      assert products[0].id != products[k].id;
      FindUnique(products[1..], k - 1);
    }
  }

  /** The products of one category, in catalog order. */
  function InCategory(products: seq<Product>, category: string): (r: seq<Product>)
    ensures |r| <= |products|
  {
    if products == [] then []
    else (if products[0].category == category then [products[0]] else [])
         + InCategory(products[1..], category)
  }

  /** The filter keeps exactly the products of the category. */
  lemma {:induction false} InCategoryMembers(products: seq<Product>, category: string)
    ensures forall p :: p in InCategory(products, category) <==> p in products && p.category == category
  {
    if products != [] {
      InCategoryMembers(products[1..], category);
      assert products == [products[0]] + products[1..];
    }
  }

  /** Filtering distributes over concatenation: together with the one-product case it fixes the order. */
  lemma {:induction false} InCategoryAppend(a: seq<Product>, b: seq<Product>, category: string)
    ensures InCategory(a + b, category) == InCategory(a, category) + InCategory(b, category)
  {
    if a == [] {
      assert a + b == b;
    } else {
      var head := if a[0].category == category then [a[0]] else [];
      assert (a + b)[0] == a[0];
      assert (a + b)[1..] == a[1..] + b;
      InCategoryAppend(a[1..], b, category);
      assert InCategory(a + b, category) == head + (InCategory(a[1..], category) + InCategory(b, category));
    }
  }

  /** A single product is kept exactly when its category matches. */
  lemma InCategorySingle(p: Product, category: string)
    ensures InCategory([p], category) == if p.category == category then [p] else []
  {
    assert [p][1..] == [];
  }

  /** Filtering keeps everything when every product is in the category, and filtering twice changes nothing. */
  lemma {:induction false} InCategoryIdempotent(products: seq<Product>, category: string)
    ensures InCategory(InCategory(products, category), category) == InCategory(products, category)
  {
    if products != [] {
      var head := if products[0].category == category then [products[0]] else [];
      InCategoryIdempotent(products[1..], category);
      InCategoryAppend(head, InCategory(products[1..], category), category);
      if products[0].category == category {
        InCategorySingle(products[0], category);
      }
    }
  }

  /** The list shown on the index page for a requested category. */
  function ProductsFor(category: string): (r: seq<Product>)
    ensures category == AllCategories ==> r == Products
    ensures category != AllCategories ==> forall p :: p in r <==> p in Products && p.category == category
  {
    if category == AllCategories then Products
    else InCategoryMembers(Products, category); InCategory(Products, category)
  }

  /** One of the shop's own categories selects exactly its two products, in catalog order. */
  lemma CameraCategory()
    ensures ProductsFor("กล้อง") == [Products[4], Products[5]]
  {
    var cameras := "กล้อง";
    assert cameras[0] != AllCategories[0];
    assert Products == [Products[0], Products[1], Products[2], Products[3]] + [Products[4], Products[5]];
    LastTwoOfSix(Products[0], Products[1], Products[2], Products[3], Products[4], Products[5], cameras);
  }

  /** Four products outside the category followed by two inside it filter to those two. */
  lemma LastTwoOfSix(a: Product, b: Product, c: Product, d: Product, e: Product, f: Product, category: string)
    requires a.category != category && b.category != category
    requires c.category != category && d.category != category
    requires e.category == category && f.category == category
    ensures InCategory([a, b, c, d] + [e, f], category) == [e, f]
  {
    UnknownCategoryEmpty([a, b, c, d], category);
    InCategoryAppend([a, b, c, d], [e, f], category);
    assert [e, f] == [e] + [f];
    InCategoryAppend([e], [f], category);
    InCategorySingle(e, category);
    InCategorySingle(f, category);
  }

  /** An unknown category selects nothing. */
  lemma {:induction false} UnknownCategoryEmpty(products: seq<Product>, category: string)
    requires forall k :: 0 <= k < |products| ==> products[k].category != category
    ensures InCategory(products, category) == []
  {
    if products != [] {
      UnknownCategoryEmpty(products[1..], category);
    }
  }
}
