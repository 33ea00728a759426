/** The product controller over an in-memory products table. Its queries are
    functions of the table; its writes change the table in place, each one
    stated through the matching function of module Mutations. */
module Catalog {
  import opened Wrappers
  import opened Products
  import opened Queries
  import opened Mutations

  class ProductTable {
    /** The rows, keyed by primary key. */
    var products: Table
    /** The next value of the auto-increment id. */
    var nextId: int

    /** Rows sit under their own ids, which are positive and below the
        auto-increment counter. */
    ghost predicate Valid()
      reads this
    {
      && WellKeyed(products)
      && 1 <= nextId
      && forall k :: k in products ==> 1 <= k < nextId
    }

    constructor ()
      ensures Valid()
      ensures products == map[] && nextId == 1
    {
      products := map[];
      nextId := 1;
    }

    /** The admin listing: every product once, pinned first, then by id. */
    function Index(): (list: seq<Product>)
      reads this
      requires Valid()
      ensures PinOrdered(list) && ListsExactly(list, products) && |list| == |products|
    {
      Listing(products)
    }

    /** The storefront listing: the same query as the admin listing. */
    function FrontendProducts(): (list: seq<Product>)
      reads this
      requires Valid()
      ensures list == Index()
    {
      Listing(products)
    }

    /** The edit form's lookup: the row, or NotFound. */
    function Edit(id: int): (r: Result<Product, Error>)
      reads this
      ensures r.Ok? <==> id in products
      ensures r.Ok? ==> r.value == products[id]
      ensures r.Err? ==> r.error == NotFound
    {
      FindOrFail(products, id)
    }

    /** The detail page: the row and the other products of its category
        (ascending ids), or NotFound. */
    function Show(id: int): (r: Result<Detail, Error>)
      reads this
      requires Valid()
      ensures r.Err? <==> id !in products
      ensures r.Err? ==> r.error == NotFound
      ensures r.Ok? ==> r.value.product == products[id]
      ensures r.Ok? ==> forall q :: q in r.value.related ==>
                          q.id != id && q.categoryId == products[id].categoryId && q in products.Values
      ensures r.Ok? ==> forall k :: k in products && k != id && products[k].categoryId == products[id].categoryId ==>
                          products[k] in r.value.related
    {
      ShowDetail(products, id)
    }

    /** Validates the request; on success inserts an unpinned row under the
        next auto-increment id and returns that id. */
    method Store(input: ProductInput) returns (r: Result<int, Error>)
      requires Valid()
      modifies this
      ensures Valid()
      ensures Validate(input) != {} ==>
        r == Err(ValidationFailed(Validate(input))) && products == old(products) && nextId == old(nextId)
      ensures Validate(input) == {} ==>
        && r == Ok(old(nextId))
        && r.value !in old(products)
        && Stored(old(products), r.value, input) == Ok(products)
        && nextId == old(nextId) + 1
      ensures r.Ok? ==> Index() == old(Index()) + [products[r.value]]
    {
      var failed := Validate(input);
      if failed != {} {
        return Err(ValidationFailed(failed));
      }
      var imageName: Option<string> := None;
      if input.image.File? {
        imageName := Some(input.image.upload.storedName);
      }
      var id := nextId;
      StoredListedLast(products, id, input);
      products := products[id := Product(id, input.name, input.price, input.details,
                                         input.categoryId, imageName, false)];
      nextId := nextId + 1;
      r := Ok(id);
    }

    /** Overwrites the editable fields of an existing row, keeping its image
        when no file was uploaded; NotFound leaves the table unchanged. */
    method Update(id: int, input: ProductInput) returns (r: Outcome<Error>)
      requires Valid()
      modifies this
      ensures Valid() && nextId == old(nextId)
      ensures Applied(Updated(old(products), id, input), r, old(products), products)
    {
      if id !in products {
        return Fail(NotFound);
      }
      var product := products[id];
      var imageName := product.image;
      if input.image.File? {
        imageName := Some(input.image.upload.storedName);
      }
      products := products[id := product.(name := input.name, price := input.price,
                                          details := input.details, categoryId := input.categoryId,
                                          image := imageName)];
      r := Pass;
    }

    /** Removes an existing row; NotFound leaves the table unchanged. */
    method Delete(id: int) returns (r: Outcome<Error>)
      requires Valid()
      modifies this
      ensures Valid() && nextId == old(nextId)
      ensures Applied(Deleted(old(products), id), r, old(products), products)
    {
      if id !in products {
        return Fail(NotFound);
      }
      products := products - {id};
      r := Pass;
    }

    /** Flips the pin flag of an existing row; NotFound leaves the table
        unchanged. */
    method Pin(id: int) returns (r: Outcome<Error>)
      requires Valid()
      modifies this
      ensures Valid() && nextId == old(nextId)
      ensures Applied(PinToggled(old(products), id), r, old(products), products)
    {
      if id !in products {
        return Fail(NotFound);
      }
      var product := products[id];
      products := products[id := product.(isPinned := !product.isPinned)];
      r := Pass;
    }
  }

  /** Pinning the same product twice through the controller restores the
      table, and so both listings. */
  method PinTwice(table: ProductTable, id: int) returns (first: Outcome<Error>, second: Outcome<Error>)
    requires table.Valid()
    modifies table
    ensures table.Valid()
    ensures first == second
    ensures first == (if id in old(table.products) then Pass else Fail(NotFound))
    ensures table.products == old(table.products) && table.Index() == old(table.Index())
  {
    first := table.Pin(id);
    second := table.Pin(id);
    if id in old(table.products) {
      PinTwiceRestores(old(table.products), id);
    }
  }
}
