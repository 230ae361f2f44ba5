# Thai electronics shop: catalog, session cart, checkout and form checks

This project is a Dafny model of the core of a small Flask shop. The shop sells
six products in three categories. It keeps each visitor's cart and last order in
the session. The model covers:

- **Catalog** (`catalog.dfy`): the six products and the category list, exactly as
  the shop defines them. It also has the lookup by id and the category filter of
  the index page.
- **Cart** (`cart.dfy`): the cart as a sequence of line items, each holding an
  id, a name, a price and a quantity. The operations are pure functions: add one
  unit, remove an id, set a quantity, and the total. Lemmas prove what each one
  does to the items, to the invariant and to the total. The invariant is one
  item per id, every quantity at least 1, and names and prices as the catalog
  has them.
- **Session** (`session.dfy`): one visitor's session as a class with fields
  `cart` and `order`. Each route handler is a method that updates those fields
  in place. It is proved against the cart functions and keeps the session
  invariant `Valid()`. Pages and JSON answers are small response datatypes.
- **Upload check** (`upload.dfy`): the admin application's `allowed_file`. A
  file name is accepted when it has a dot and the text after its last dot,
  lower-cased, is one of the five image extensions.
- **Form checks** (`validation.dfy`): the checkout page's client-side
  `isValidEmail` and `isValidPhone`.
- **Option** (`maybe.dfy`): stands in for Python's `None`.

`Session.catalog` is a constant field. The constructor sets it to the shop's
product list. The handlers look product ids up in it. Writing it as a field
keeps the six-product list out of every handler's proof. Each handler's
contract then reads with `catalog == Catalog.Products`, which the constructor
guarantees and nothing can change.

The time stamp of an order is a parameter (`orderDate`) of `PlaceOrder`, not a
reading of the clock. The checkout form arrives as a `Customer` value. A field
the form did not send is `None` in it.

The order is not consumed when the success page is shown. The handler only
reads the recorded order, so the page can be shown again until the next order
replaces it. A one-shot reading of the order record would expect otherwise; the
model follows the code.

## Model

| member | source | states |
|---|---|---|
| Catalog.CatalogInvariant | ecommerce/app.py:11-62 | the product list has unique ids and non-negative prices, and every product's category is one of the listed categories other than "all" |
| Catalog.Find | ecommerce/app.py:147 | the lookup finds nothing exactly when no product has the id; what it finds has that id |
| Catalog.FindFirst | ecommerce/app.py:147 | the product found is the first one in catalog order with that id |
| Catalog.FindUnique | ecommerce/app.py:147 | with unique ids, looking up the id of any product returns that product |
| Catalog.InCategoryMembers | ecommerce/app.py:129 | the category filter keeps exactly the products of that category |
| Catalog.InCategoryAppend | ecommerce/app.py:129 | filtering distributes over concatenation, so catalog order is kept |
| Catalog.InCategorySingle | ecommerce/app.py:129 | one product is kept exactly when its category matches |
| Catalog.InCategoryIdempotent | ecommerce/app.py:129 | filtering the filtered list changes nothing |
| Catalog.UnknownCategoryEmpty | ecommerce/app.py:129 | a category that no product has selects an empty list |
| Catalog.ProductsFor | ecommerce/app.py:123-129 | "all" selects the whole catalog; any other category selects exactly its products |
| Catalog.CameraCategory | ecommerce/app.py:11-62 | the camera category shows exactly the two cameras, in catalog order |
| Cart.TotalNonNegative | ecommerce/app.py:203 | the empty cart totals 0, and non-negative prices and quantities give a non-negative total |
| Cart.TotalAppend | ecommerce/app.py:203 | the total of two concatenated carts is the sum of their totals |
| Cart.TotalReplace | ecommerce/app.py:203 | replacing one item changes the total by the difference of the two subtotals |
| Cart.IdsAppend | ecommerce/app.py:154 | the ids of a concatenation are the union of the ids |
| Cart.IndexOf | ecommerce/app.py:154 | no position exactly when the id is absent; otherwise the first position holding the id |
| Cart.IndexOfWellFormed | ecommerce/app.py:154 | in a well-formed cart, looking up an item's id finds that item's position |
| Cart.WithoutMembers | ecommerce/app.py:175 | removal keeps exactly the items whose id differs |
| Cart.WithoutAppend | ecommerce/app.py:175 | removal distributes over concatenation, so the order of the kept items is unchanged |
| Cart.WithoutAbsent | ecommerce/app.py:175 | removing an id that is not in the cart leaves it unchanged |
| Cart.WithoutPresent | ecommerce/app.py:175 | in a well-formed cart, removing an item's id deletes that one item and keeps the rest in order |
| Cart.WithoutInvariant | ecommerce/app.py:175 | removal keeps the cart well formed and leaves the id absent; the count drops by one if the id was present, and is unchanged otherwise |
| Cart.WithoutSnapshots | ecommerce/app.py:175 | removal keeps every name and price equal to the catalog's |
| Cart.TotalWithout | ecommerce/app.py:175 | removing an item lowers the total by exactly that item's subtotal |
| Cart.AddExisting | ecommerce/app.py:154-156 | adding a product already in the cart raises only that item's quantity by one; all else is unchanged |
| Cart.AddNew | ecommerce/app.py:157-163 | adding a product not in the cart appends one item with the catalog's name and price and quantity 1 |
| Cart.AddWellFormed | ecommerce/app.py:153-163 | adding keeps one item per id with positive quantities |
| Cart.AddSnapshots | ecommerce/app.py:158-163 | adding a catalog product keeps every name and price equal to the catalog's |
| Cart.AddTotal | ecommerce/app.py:153-163 | each add raises the total by the product's catalog price |
| Cart.AddRepeated | ecommerce/app.py:153-163 | n adds of a new product give one item with quantity n at the end of the cart |
| Cart.AddThenRemove | ecommerce/app.py:153-178 | removing a product just added gives the same cart as removing it before; for a new product, it gives the original cart |
| Cart.Requested | ecommerce/app.py:185 | a missing quantity means 1; a given quantity is taken as it is |
| Cart.UpdateAbsent | ecommerce/app.py:188-190 | setting the quantity of an id not in the cart changes nothing |
| Cart.UpdateNonPositive | ecommerce/app.py:191-192 | a quantity of zero or less acts as removal of the id |
| Cart.UpdatePositive | ecommerce/app.py:193-194 | a positive quantity replaces only that item's quantity; the other items and fields are unchanged |
| Cart.UpdateWellFormed | ecommerce/app.py:188-194 | updating keeps the cart well formed |
| Cart.UpdateSnapshots | ecommerce/app.py:188-194 | updating keeps every name and price equal to the catalog's |
| Cart.UpdateTotal | ecommerce/app.py:188-194 | the total drops by the item's subtotal on removal, else changes by price times the change of quantity |
| Cart.CountIsDistinctProducts | ecommerce/app.py:266 | in a well-formed cart the count equals the number of distinct product ids |
| Shop.TotalNonNegative | ecommerce/app.py:203 | a well-formed cart of catalog snapshots never has a negative total |
| Shop.Session.constructor | ecommerce/app.py:104-108 | a new session has an empty cart, no order, and the shop's catalog, and is valid |
| Shop.Session.Index | ecommerce/app.py:120-138 | the category defaults to "all"; the page lists that category's products, all categories and the cart count |
| Shop.Session.AddToCart | ecommerce/app.py:140-166 | not found exactly when the id is not in the catalog, and then the cart is unchanged; otherwise the cart becomes the add of that product and the answer is the new count; the invariant is kept |
| Shop.Session.RemoveFromCart | ecommerce/app.py:168-178 | the cart becomes the removal of the id, the answer is the new count, and the invariant is kept |
| Shop.Session.UpdateQuantity | ecommerce/app.py:180-197 | the cart becomes the update with the requested quantity (default 1), and the invariant is kept |
| Shop.Session.ViewCart | ecommerce/app.py:199-205 | the page shows the cart, its total and its count, and the total is non-negative |
| Shop.Session.CartCount | ecommerce/app.py:262-266 | the count is the number of items, which is the number of distinct products |
| Shop.Session.CheckoutPage | ecommerce/app.py:242-251 | redirect to the index exactly when the cart is empty; otherwise the form shows the cart, its total and its count |
| Shop.Session.PlaceOrder | ecommerce/app.py:210-240 | an empty cart redirects to the index and leaves the order alone; otherwise the order records the customer, the cart, its total and the time stamp, and the page goes to order success; the cart is empty afterwards either way |
| Shop.Session.OrderSuccess | ecommerce/app.py:253-260 | redirect to the index exactly when no order is recorded; otherwise show the recorded order |
| Upload.LowerChar | app.py:31 | ASCII capitals become the matching small letters; every other character is kept |
| Upload.LowerAt | app.py:31 | lower-casing works character by character at each position |
| Upload.LowerTwice | app.py:31 | lower-casing is idempotent and neither creates nor removes a dot |
| Upload.Extension | app.py:31 | the extension is the dot-free text after the last dot of the name |
| Upload.ExtensionAfterLastDot | app.py:31 | for a stem, a dot and dot-free text, the extension is exactly that text |
| Upload.AllowedFile | app.py:29-31 | a name without a dot is refused |
| Upload.AllowedFileLastDot | app.py:19-31 | a name ending in a dot and dot-free text is accepted exactly when that text, lower-cased, is png, jpg, jpeg, gif or webp |
| Upload.AllowedFileMeaning | app.py:29-31 | accepted exactly when some dot is followed by dot-free text whose lower-case form is an allowed extension |
| Upload.TrailingDotRejected | app.py:29-31 | a name ending in a dot is refused |
| Upload.LowerKeepsVerdict | app.py:29-31 | a name and its lower-case form get the same answer |
| Upload.DoubleExtensions | app.py:29-31 | only the last extension counts: a.tar.png is accepted and a.png.exe is refused |
| Upload.CapitalExtension | app.py:29-31 | PHOTO.JPG is accepted |
| FormValidation.EmailFromParts | ecommerce/static/js/main.js:107-110 | three non-empty runs of non-space, non-@ characters joined by @ and a dot form a valid address |
| FormValidation.EmailToParts | ecommerce/static/js/main.js:107-110 | every valid address is such a join (the converse of EmailFromParts) |
| FormValidation.EmailRejectsWhitespace | ecommerce/static/js/main.js:107-110 | a white-space character anywhere makes the address invalid |
| FormValidation.EmailRejectsTwoAts | ecommerce/static/js/main.js:107-110 | two @ signs make the address invalid |
| FormValidation.EmailShape | ecommerce/static/js/main.js:107-110 | in a valid address the @ is not first, and a dot stands strictly inside the text after it |
| FormValidation.EmailAccepted | ecommerce/static/js/main.js:107-110 | a@b.c is accepted |
| FormValidation.EmailRefused | ecommerce/static/js/main.js:107-110 | a@b, a@.b, a@b. and @b.c are refused |
| FormValidation.StripMembers | ecommerce/static/js/main.js:115 | separator deletion removes exactly the white space and hyphens |
| FormValidation.StripAppend | ecommerce/static/js/main.js:115 | deleting separators distributes over concatenation, so order is kept |
| FormValidation.StripNothing | ecommerce/static/js/main.js:115 | a string without separators is left unchanged |
| FormValidation.AllDigitsMeaning | ecommerce/static/js/main.js:114 | the digit check holds exactly when every character is 0 to 9 |
| FormValidation.PhoneMeaning | ecommerce/static/js/main.js:113-116 | valid exactly when the number without separators is nine or ten ASCII digits |
| FormValidation.PhoneIgnoresSeparators | ecommerce/static/js/main.js:113-116 | deleting separators is idempotent, and the stripped number gets the same answer |
| FormValidation.PhoneSeparatorAnywhere | ecommerce/static/js/main.js:113-116 | inserting a space or hyphen anywhere never changes the answer |
| FormValidation.PhoneRejectsOtherChar | ecommerce/static/js/main.js:113-116 | any character other than a digit, white space or hyphen makes the number invalid |
| FormValidation.PhoneDigitsOnly | ecommerce/static/js/main.js:113-116 | a string of digits is valid exactly when it has nine or ten of them |
| FormValidation.PhoneTooShort | ecommerce/static/js/main.js:113-116 | fewer than nine characters is always invalid |
| FormValidation.PhoneRefused | ecommerce/static/js/main.js:113-116 | +66812345678 is refused for its plus sign and 12345678 for its length |

## Left out

- Flask plumbing is not modelled: routing, templates, JSON encoding, redirects as HTTP responses, and the session cookie. The handlers' answers are response datatypes instead.
- Generating product images with PIL when a request arrives is not modelled. It is I/O, and the cart does not depend on it.
- The second application's database models, admin routes, login and saving uploaded files are not modelled. Only its `allowed_file` check is.
- The clock is not modelled: the order's time stamp is passed in as text.
- Shop.Session.UpdateQuantity: a quantity that cannot be parsed as an integer (the handler's conversion raises) is not modelled. The quantity is an optional integer, where absent means 1.
- Shop.Session.AddToCart: product ids are integers. JSON values that Python compares equal to an integer id (`true`, `1.0`) and a request without an id or without a JSON body are not modelled.
- Upload.Lower: lower-cases ASCII letters only. For the verdict of `allowed_file` this agrees with Python's full Unicode lower-casing. The only non-ASCII characters that lower-case into ASCII are the Kelvin sign, which becomes `k`, and the capital I with a dot above, which becomes two characters. No allowed extension can come out of either.
- FormValidation: characters are Unicode scalar values, not JavaScript's UTF-16 code units. White space and `@` are single code units, so the answers are the same.
- FormValidation.PhoneRefused: no concrete accepted phone number is stated. The accepting direction is covered for all inputs by PhoneMeaning and PhoneDigitsOnly.
- Money is whole baht as in the catalog. Floating-point amounts and the client's currency formatting are not modelled, and neither are the page's DOM handling and input debouncing.
