/** The write side of the product controller as functions from the table
    before a request to the table after it, with the properties each write
    keeps. The class in module Catalog performs these writes in place and
    states its new state through these functions. */
module Mutations {
  import opened Wrappers
  import opened Products
  import opened Queries

  /** `store` with the id the database assigns: the request is validated,
      then the new row is inserted. */
  function Stored(t: Table, id: int, input: ProductInput): Result<Table, Error> {
    var failed := Validate(input);
    if failed != {} then Err(ValidationFailed(failed))
    else Ok(t[id := NewProduct(id, input)])
  }

  /** `update`: findOrFail, then the editable fields are overwritten. */
  function Updated(t: Table, id: int, input: ProductInput): Result<Table, Error> {
    if id !in t then Err(NotFound) else Ok(t[id := Overwritten(t[id], input)])
  }

  /** `delete`: findOrFail, then the row is removed. */
  function Deleted(t: Table, id: int): Result<Table, Error> {
    if id !in t then Err(NotFound) else Ok(t - {id})
  }

  /** `pin`: findOrFail, then `is_pinned` is replaced by its negation. */
  function PinToggled(t: Table, id: int): Result<Table, Error> {
    if id !in t then Err(NotFound) else Ok(t[id := t[id].(isPinned := !t[id].isPinned)])
  }

  /** A write whose outcome is `r` took the table from `before` to `after`
      as `step` says: on success the new table, on failure an unchanged one. */
  ghost predicate Applied(step: Result<Table, Error>, r: Outcome<Error>, before: Table, after: Table) {
    match step
    case Ok(t) => r == Pass && after == t
    case Err(e) => r == Fail(e) && after == before
  }

  /** A request that breaks a rule is refused with every failing field and
      leaves the table unchanged; an accepted one adds exactly one row, under
      the new id, unpinned, carrying the request's fields, and changes no
      other row. */
  lemma StoreContract(t: Table, id: int, input: ProductInput)
    requires id !in t
    ensures Validate(input) != {} ==> Stored(t, id, input) == Err(ValidationFailed(Validate(input)))
    ensures Validate(input) == {} ==>
      && Stored(t, id, input).Ok?
      && var t' := Stored(t, id, input).value;
      && t'.Keys == t.Keys + {id}
      && |t'| == |t| + 1
      && t'[id].id == id
      && !t'[id].isPinned
      && Filled(t'[id].name) && Filled(t'[id].price) && t'[id].categoryId.Some?
      && t'[id].name == input.name && t'[id].price == input.price
      && t'[id].details == input.details && t'[id].categoryId == input.categoryId
      && (!input.image.File? ==> t'[id].image.None?)
      && (input.image.File? ==> t'[id].image == Some(input.image.upload.storedName))
      && forall k :: k in t ==> t'[k] == t[k]
  {
  }

  /** Whatever the request carries, a stored product starts unpinned. */
  lemma StoreNeverPins(t: Table, id: int, input: ProductInput)
    ensures Stored(t, id, input).Ok? ==> !Stored(t, id, input).value[id].isPinned
  {
  }

  /** A create form submitted with its file input left empty is refused on
      `image`, and nothing is inserted. */
  lemma EmptyFileInputRefused(t: Table, id: int, input: ProductInput)
    requires input.image == NoFile
    ensures Stored(t, id, input).Err?
    ensures Image in Stored(t, id, input).error.fields
  {
  }

  /** Deleting the row a successful store inserted gives back the table. */
  lemma DeleteUndoesStore(t: Table, id: int, input: ProductInput)
    requires id !in t && Validate(input) == {}
    ensures Stored(t, id, input).Ok?
    ensures Deleted(Stored(t, id, input).value, id) == Ok(t)
  {
    var t' := Stored(t, id, input).value;
    assert t' - {id} == t;
  }

  /** On an existing id, update overwrites name, price, details and category,
      keeps the old image unless a new file was uploaded, and leaves the id,
      the pin flag and every other row unchanged. No validation rule is
      applied: any request, even one missing every required field or carrying
      a disallowed file, is written. */
  lemma UpdateContract(t: Table, id: int, input: ProductInput)
    requires id in t
    ensures Updated(t, id, input).Ok?
    ensures var t' := Updated(t, id, input).value;
      && t'.Keys == t.Keys
      && t'[id].id == t[id].id
      && t'[id].isPinned == t[id].isPinned
      && t'[id].name == input.name && t'[id].price == input.price
      && t'[id].details == input.details && t'[id].categoryId == input.categoryId
      && (!input.image.File? ==> t'[id].image == t[id].image)
      && (input.image.File? ==> t'[id].image == Some(input.image.upload.storedName))
      && forall k :: k in t && k != id ==> t'[k] == t[k]
  {
  }

  /** A successful delete removes exactly that row. */
  lemma DeleteContract(t: Table, id: int)
    requires id in t
    ensures Deleted(t, id).Ok?
    ensures var t' := Deleted(t, id).value;
      && t'.Keys == t.Keys - {id}
      && |t'| == |t| - 1
      && forall k :: k in t' ==> t'[k] == t[k]
  {
  }

  /** Pin flips the flag of that row and changes nothing else. */
  lemma PinContract(t: Table, id: int)
    requires id in t
    ensures PinToggled(t, id).Ok?
    ensures var t' := PinToggled(t, id).value;
      && t'.Keys == t.Keys
      && t'[id].isPinned == !t[id].isPinned
      && t'[id].(isPinned := t[id].isPinned) == t[id]
      && forall k :: k in t && k != id ==> t'[k] == t[k]
  {
  }

  /** Pinning twice restores the table. */
  lemma PinTwiceRestores(t: Table, id: int)
    requires id in t
    ensures PinToggled(t, id).Ok?
    ensures PinToggled(PinToggled(t, id).value, id) == Ok(t)
  {
    var t' := PinToggled(t, id).value;
    assert t'[id := t'[id].(isPinned := !t'[id].isPinned)] == t;
  }

  /** Every by-id operation on an absent id fails with NotFound, and the
      writes leave the table unchanged. */
  lemma MissingIdIsNotFound(t: Table, id: int, input: ProductInput)
    requires WellKeyed(t) && id !in t
    ensures FindOrFail(t, id) == Err(NotFound)
    ensures ShowDetail(t, id) == Err(NotFound)
    ensures Updated(t, id, input) == Err(NotFound)
    ensures Deleted(t, id) == Err(NotFound)
    ensures PinToggled(t, id) == Err(NotFound)
  {
  }

  /** Every write keeps each row under its own id. */
  lemma WritesKeepKeys(t: Table, id: int, input: ProductInput)
    requires WellKeyed(t)
    ensures Stored(t, id, input).Ok? ==> WellKeyed(Stored(t, id, input).value)
    ensures Updated(t, id, input).Ok? ==> WellKeyed(Updated(t, id, input).value)
    ensures Deleted(t, id).Ok? ==> WellKeyed(Deleted(t, id).value)
    ensures PinToggled(t, id).Ok? ==> WellKeyed(PinToggled(t, id).value)
  {
  }

  /** With ids assigned in increasing order, a stored product (unpinned, with
      the largest id) appears at the end of the listing, after every
      product that was already listed, in unchanged order. */
  lemma {:induction false} StoredListedLast(t: Table, id: int, input: ProductInput)
    requires WellKeyed(t) && Validate(input) == {}
    requires forall k :: k in t ==> k < id
    ensures Stored(t, id, input).Ok?
    ensures WellKeyed(Stored(t, id, input).value)
    ensures Listing(Stored(t, id, input).value) == Listing(t) + [NewProduct(id, input)]
  {
    var p := NewProduct(id, input);
    var t' := t[id := p];
    var l := Listing(t);
    var s := l + [p];
    forall i, j | 0 <= i < j < |s| ensures Precedes(s[i], s[j]) {
      if j == |l| {
        assert s[i] == l[i] && l[i].id in t;
      } else {
        assert s[i] == l[i] && s[j] == l[j];
      }
    }
    forall i | 0 <= i < |s| ensures s[i].id in t' && t'[s[i].id] == s[i] {
      if i < |l| {
        assert s[i] == l[i] && l[i].id in t;
      }
    }
    forall k | k in t' ensures t'[k] in s {
      if k != id {
        assert t[k] in l;
      }
    }
    ListingDeterminedByOrder(t', s);
  }
}
