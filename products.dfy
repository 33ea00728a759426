/** The product record, the fields of a store/update request and the
    validation that `store` applies to them. */
module Products {
  import opened Wrappers

  /** A row of the products table. The category is referred to by its id;
      `image` is the stored file name of the product's picture, if any.
      The text columns are optional because `update` writes whatever the
      request carries, including nothing. */
  datatype Product = Product(
    id: int,
    name: Option<string>,
    price: Option<string>,
    details: Option<string>,
    categoryId: Option<int>,
    image: Option<string>,
    isPinned: bool)

  /** An uploaded image file: the extension detected from its contents, and
      the file name under which the storage step saved it. */
  datatype Upload = Upload(extension: string, storedName: string)

  /** The `image` field of a request: not sent at all, sent without a file
      (an empty file input arrives as null), or carrying an uploaded file.
      Only the last makes `hasFile('image')` true. */
  datatype ImageField = Absent | NoFile | File(upload: Upload)

  /** The fields of a store or update request; `None` is a text field the
      request does not carry (or carries as null). */
  datatype ProductInput = ProductInput(
    name: Option<string>,
    price: Option<string>,
    details: Option<string>,
    categoryId: Option<int>,
    image: ImageField)

  /** The request fields that carry a validation rule. */
  datatype Field = Name | Price | CategoryId | Image

  /** Failures: a by-id lookup that finds no row, or a request that breaks
      one or more validation rules (all failing fields are reported). */
  datatype Error = NotFound | ValidationFailed(fields: set<Field>)

  /** The products table, keyed by primary key. */
  type Table = map<int, Product>

  /** Every row is stored under its own id. */
  ghost predicate WellKeyed(t: Table) {
    forall k :: k in t ==> t[k].id == k
  }

  /** The characters PHP's `trim` removes by default. */
  const TrimmedChars: set<char> := {' ', '\t', '\n', '\r', '\0', '\U{B}'}

  /** A text that is empty once trimmed. */
  predicate Blank(s: string) {
    forall i :: 0 <= i < |s| ==> s[i] in TrimmedChars
  }

  /** The `required` rule on a text field: present and not blank. */
  predicate Filled(v: Option<string>) {
    v.Some? && !Blank(v.value)
  }

  /** The extensions the rule `image|mimes:jpg,png,jpeg,webp` lets through. */
  const AllowedImageExtensions: set<string> := {"jpg", "png", "jpeg", "webp"}

  /** The image rules are not `nullable`: they are skipped only when the key
      is absent, a present but empty field fails `image`, and a file passes
      when its extension is allowed. */
  predicate AcceptedUpload(f: ImageField) {
    match f
    case Absent => true
    case NoFile => false
    case File(u) => u.extension in AllowedImageExtensions
  }

  /** The fields of `input` that break the rules `store` validates;
      the request is accepted exactly when this set is empty. */
  function Validate(input: ProductInput): (failed: set<Field>)
    ensures Name in failed <==> !Filled(input.name)
    ensures Price in failed <==> !Filled(input.price)
    ensures CategoryId in failed <==> input.categoryId.None?
    ensures Image in failed <==> !AcceptedUpload(input.image)
  {
    (if Filled(input.name) then {} else {Name})
    + (if Filled(input.price) then {} else {Price})
    + (if input.categoryId.Some? then {} else {CategoryId})
    + (if AcceptedUpload(input.image) then {} else {Image})
  }

  /** The image reference after a request: the new upload's stored name when
      a file was uploaded, otherwise the reference already held. */
  function ImageAfter(f: ImageField, current: Option<string>): Option<string> {
    if f.File? then Some(f.upload.storedName) else current
  }

  /** The row `store` inserts under `id`: the request's fields, the uploaded
      image if any, and never pinned. */
  function NewProduct(id: int, input: ProductInput): Product {
    Product(id, input.name, input.price, input.details, input.categoryId,
            ImageAfter(input.image, None), false)
  }

  /** The row `update` writes over `p`: the request's editable fields, the
      old image unless a new one was uploaded; id and pin flag untouched. */
  function Overwritten(p: Product, input: ProductInput): Product {
    p.(name := input.name, price := input.price, details := input.details,
       categoryId := input.categoryId, image := ImageAfter(input.image, p.image))
  }
}
