# Pinned-first product catalog, modelled in Dafny

This project models the product controller of a small Laravel catalog
(`app/Http/Controllers/ProductController.php`). The controller keeps a
products table that an admin can add to, edit, delete from and pin. It
shows the table twice, on an admin page and on a storefront page, with
pinned products first. A product's detail page also lists the other
products of its category.

The table is a `map<int, Product>` keyed by primary key. A product carries
`id`, `name`, `price`, `details`, `categoryId`, an optional `image` file
name and `isPinned`.

- `wrappers.dfy` (`Wrappers`): `Option`, `Result` and `Outcome`.
- `products.dfy` (`Products`): the product row, the request fields, the
  errors and the validation rules that `store` applies.
- `queries.dfy` (`Queries`): the listing ordered by `is_pinned` descending
  and then `id` ascending, `findOrFail`, and the detail page with its
  related products. These are pure functions, with the lemma that the
  ordering fixes the listing uniquely.
- `mutations.dfy` (`Mutations`): `store`, `update`, `delete` and `pin` as
  functions from the table before a request to the table after it. Lemmas
  state what each write keeps and changes.
- `catalog.dfy` (`Catalog`): class `ProductTable`, with the table as a field
  and an auto-increment counter. Its methods change the table in place, and
  each method's postcondition ties the new table to the function in
  `Mutations`. Its query functions are the controller's read actions.

How the model reads the code:

- Validation (`store` only) reports every failing field at once:
  `ValidationFailed(fields)`.
  - `name` and `price` must be present and not blank after PHP `trim`.
  - `category_id` must be present. It is modelled as an already-parsed
    integer; see "Left out".
  - The `image` field has three states (`ImageField`): absent, present
    without a file, and carrying a file. The rules are not `nullable`.
    - An absent key skips them.
    - A present key without a file fails `image`; this is what an empty
      file input on a form sends.
    - A file passes when its extension is in {jpg, png, jpeg, webp}. The
      `image` rule and the `mimes` list together admit exactly these.
    - Only a file makes `hasFile('image')` true.
  - A bad image is one of these failing fields, not a separate kind of
    error.
- `update` performs no validation. It writes the request's `name`, `price`,
  `details` and `category_id` as given, including absent values, and it
  stores an uploaded file of any type. This is why the text columns of
  `Product` are `Option`s. Unlike `store`, `update` applies none of the
  validation rules.
- `show` selects related products by equality of `categoryId`. In Laravel, a
  `where` against a null value becomes `whereNull`, so equality on
  `Option<int>` matches the query. The query has no ordering; the model
  returns related products in ascending id order.
- Ids come from the auto-increment counter `nextId`, which starts at 1.
  Every stored id is below it. So a stored product is always new, and it
  is listed last (`StoredListedLast`).
- `price` is kept as the text the request carried. The controller never
  computes with it.

## Model

| member | source | states |
|---|---|---|
| `Products.Validate` | app/Http/Controllers/ProductController.php:32-37 | a field is reported exactly when it breaks its rule: name or price absent or blank, category_id absent, or an image key that is present without a file or with a file whose extension is not jpg, png, jpeg or webp; the request passes exactly when none is reported |
| `Queries.Ascending` | app/Http/Controllers/ProductController.php:16 | the rows of the chosen ids, each once and nothing else, with ids strictly ascending |
| `Queries.Listing` | app/Http/Controllers/ProductController.php:14-17 | the listing holds every stored product and only stored products, as many entries as rows; every pinned product precedes every unpinned one, and ids strictly ascend within each group |
| `Queries.OrderedUnique` | app/Http/Controllers/ProductController.php:15-16 | two pinned-first, id-ascending sequences holding the same products are equal, so the two-key ordering leaves no freedom |
| `Queries.ListingDeterminedByOrder` | app/Http/Controllers/ProductController.php:14-17 | any sequence that lists exactly the table's products in pinned-first, id-ascending order is the listing |
| `Queries.RelatedTo` | app/Http/Controllers/ProductController.php:124-126 | the related products never include the product itself; each shares its category and is a stored row; every other product of that category is included; ids ascend |
| `Queries.FindOrFail` | app/Http/Controllers/ProductController.php:61 | succeeds exactly when the id is stored, with that row; otherwise fails with NotFound |
| `Queries.ShowDetail` | app/Http/Controllers/ProductController.php:120-129 | NotFound exactly when the id is absent; otherwise the stored row plus all other products of its category, excluding itself |
| `Mutations.StoreContract` | app/Http/Controllers/ProductController.php:32-53 | an invalid request fails with its failing fields; a valid one adds exactly one row under the new id, unpinned, with the request's fields and the uploaded image name or none, and leaves every existing row unchanged |
| `Mutations.StoreNeverPins` | app/Http/Controllers/ProductController.php:52 | no request can create a pinned product |
| `Mutations.EmptyFileInputRefused` | app/Http/Controllers/ProductController.php:36 | a store request whose image key is present without a file fails validation on `image` and inserts nothing |
| `Mutations.DeleteUndoesStore` | app/Http/Controllers/ProductController.php:46-53 | deleting the row a successful store inserted restores the table |
| `Mutations.UpdateContract` | app/Http/Controllers/ProductController.php:68-84 | on a stored id, whatever the request carries (no validation): name, price, details and category_id are overwritten; the image is kept when no file was uploaded and replaced when one was; id, pin flag and all other rows are unchanged |
| `Mutations.DeleteContract` | app/Http/Controllers/ProductController.php:92 | a successful delete removes exactly that id and keeps every other row as it was |
| `Mutations.PinContract` | app/Http/Controllers/ProductController.php:99-103 | pin negates the flag of that row, and changes no other field and no other row |
| `Mutations.PinTwiceRestores` | app/Http/Controllers/ProductController.php:99-103 | pinning the same id twice gives back the original table |
| `Mutations.MissingIdIsNotFound` | app/Http/Controllers/ProductController.php:61-122 | findOrFail, show, update, delete and pin on an absent id all fail with NotFound |
| `Mutations.WritesKeepKeys` | app/Http/Controllers/ProductController.php:46-103 | store, update, delete and pin keep every row under its own id |
| `Mutations.StoredListedLast` | app/Http/Controllers/ProductController.php:14-17 | with increasing ids, the listing after a store is the old listing followed by the new product |
| `Catalog.ProductTable.constructor` | app/Http/Controllers/ProductController.php:9-10 | an empty table whose auto-increment counter starts at 1 |
| `Catalog.ProductTable.Index` | app/Http/Controllers/ProductController.php:12-20 | the admin listing is pinned-first and id-ascending, and lists every stored product exactly once |
| `Catalog.ProductTable.FrontendProducts` | app/Http/Controllers/ProductController.php:109-117 | the storefront listing is the same sequence as the admin listing for the same table |
| `Catalog.ProductTable.Edit` | app/Http/Controllers/ProductController.php:59-65 | the stored row for the id, or NotFound exactly when the id is absent |
| `Catalog.ProductTable.Show` | app/Http/Controllers/ProductController.php:120-129 | NotFound exactly when the id is absent; otherwise the stored row plus its related products: never the product itself, each of its category, and every other product of its category |
| `Catalog.ProductTable.Store` | app/Http/Controllers/ProductController.php:30-56 | an invalid request returns its failing fields and leaves the table and counter unchanged; a valid one inserts the row `Stored` describes under the counter's id, advances the counter, and appends the new product to the listing |
| `Catalog.ProductTable.Update` | app/Http/Controllers/ProductController.php:68-87 | the table becomes what `Updated` gives; on NotFound it is unchanged |
| `Catalog.ProductTable.Delete` | app/Http/Controllers/ProductController.php:90-94 | the table becomes what `Deleted` gives; on NotFound it is unchanged |
| `Catalog.ProductTable.Pin` | app/Http/Controllers/ProductController.php:97-106 | the table becomes what `PinToggled` gives; on NotFound it is unchanged |
| `Catalog.PinTwice` | app/Http/Controllers/ProductController.php:97-106 | two pin requests on the same id get the same outcome and leave the table and the listing as they were |

## Left out

- `create` (the add form) and the category list on the edit form: they
  only load `Category::all()` for a view.
- Views, redirects and routing. The storefront template only displays the
  "PINNED" badge, the price with two decimals and details cut to 70
  characters; none of this is modelled.
- Image upload I/O: the `time()`-based file name and the move into the
  public directory. The stored name is an input (`Upload.storedName`).
  The file is saved before the row is written, and that ordering is not
  modelled.
- MIME detection: an upload carries its detected extension as an abstract
  value.
- The eager `with('category')` join: categories appear only as
  `categoryId`. The database's foreign key and column constraints (for
  example NOT NULL on `name`) are not part of this model, so an `update`
  that writes an absent value is modelled as succeeding.
- Request middleware that trims strings or turns empty strings into null:
  the request fields are taken as they reach the controller.
- Mass-assignment guarding in the `Product` model: `app/Models/Product.php`
  is not part of this model, and every written column is taken as
  fillable.
- Concurrency: two concurrent pin toggles race (the last write wins). The
  model runs one request at a time.
- Database-assigned ids: the model's counter starts at 1 and never reuses
  an id. A real auto-increment column may start elsewhere or skip values.
- Validation-error re-rendering: a failing store returns
  `ValidationFailed` with the failing fields, and what the framework shows
  the user is not modelled.
- Products.Validate: `category_id` is taken as an already-parsed integer,
  so a present but blank text (which `required` refuses) and a non-numeric
  text (which `required` lets through to the database) are not represented.
- Eloquent's `created_at` and `updated_at` columns, which `create`, `update`
  and the pin toggle write, are not modelled. `PinTwiceRestores`,
  `DeleteUndoesStore` and `PinTwice` restore the table in the modelled
  columns only.
