/** The product record, the partial record accepted by an update, and how the two are merged. */
module Products {
  import opened Wrappers

  /** A catalog entry. The fields are in the order the `Product` constructor assigns them;
      `price` and `stock` are whole numbers here and are not validated. */
  datatype Product = Product(
    title: string,
    description: string,
    price: int,
    thumbnail: string,
    code: string,
    stock: int,
    id: string)

  /** The `updatedFields` object of an update: each key is either supplied or absent.
      `id` is one of the keys a caller may supply. */
  datatype Patch = Patch(
    title: Option<string>,
    description: Option<string>,
    price: Option<int>,
    thumbnail: Option<string>,
    code: Option<string>,
    stock: Option<int>,
    id: Option<string>)

  /** The errors the manager throws. */
  datatype Error =
    | DuplicateCode  // "El código de producto ya está en uso"
    | NotFound       // "Producto no encontrado"

  /** The empty object `{}`. */
  const NoFields: Patch := Patch(None, None, None, None, None, None, None)

  /** A supplied key wins over the current value. */
  function Pick<T>(supplied: Option<T>, current: T): T
  {
    if supplied.Some? then supplied.value else current
  }

  /** The object spread `{ ...p, ...f }`: every key present in `f` replaces the one in `p`. */
  function Merge(p: Product, f: Patch): (r: Product)
    ensures f.title.Some? ==> r.title == f.title.value
    ensures f.title.None? ==> r.title == p.title
    ensures f.description.Some? ==> r.description == f.description.value
    ensures f.description.None? ==> r.description == p.description
    ensures f.price.Some? ==> r.price == f.price.value
    ensures f.price.None? ==> r.price == p.price
    ensures f.thumbnail.Some? ==> r.thumbnail == f.thumbnail.value
    ensures f.thumbnail.None? ==> r.thumbnail == p.thumbnail
    ensures f.code.Some? ==> r.code == f.code.value
    ensures f.code.None? ==> r.code == p.code
    ensures f.stock.Some? ==> r.stock == f.stock.value
    ensures f.stock.None? ==> r.stock == p.stock
    ensures f.id.Some? ==> r.id == f.id.value
    ensures f.id.None? ==> r.id == p.id
  {
    Product(
      Pick(f.title, p.title),
      Pick(f.description, p.description),
      Pick(f.price, p.price),
      Pick(f.thumbnail, p.thumbnail),
      Pick(f.code, p.code),
      Pick(f.stock, p.stock),
      Pick(f.id, p.id))
  }

  /** The patch `{ ...f, ...g }`: a key of `g` wins over the same key of `f`. */
  function Combine(f: Patch, g: Patch): Patch
  {
    Patch(
      if g.title.Some? then g.title else f.title,
      if g.description.Some? then g.description else f.description,
      if g.price.Some? then g.price else f.price,
      if g.thumbnail.Some? then g.thumbnail else f.thumbnail,
      if g.code.Some? then g.code else f.code,
      if g.stock.Some? then g.stock else f.stock,
      if g.id.Some? then g.id else f.id)
  }

  /** Merging the empty object changes nothing. */
  lemma MergeNoFields(p: Product)
    ensures Merge(p, NoFields) == p
  {
  }

  /** Two merges in a row are one merge of the combined patch. */
  lemma MergeCombine(p: Product, f: Patch, g: Patch)
    ensures Merge(Merge(p, f), g) == Merge(p, Combine(f, g))
  {
  }

  /** Applying the same patch twice is applying it once. */
  lemma MergeIdempotent(p: Product, f: Patch)
    ensures Merge(Merge(p, f), f) == Merge(p, f)
  {
  }

  /** The id survives a merge exactly when the patch does not replace it with another one. */
  lemma MergeKeepsId(p: Product, f: Patch)
    ensures Merge(p, f).id == p.id <==> (f.id.None? || f.id.value == p.id)
  {
  }

  /** A patch that supplies only `stock` changes only `stock`. */
  lemma MergeStockOnly(p: Product, n: int)
    ensures Merge(p, NoFields.(stock := Some(n))) == p.(stock := n)
  {
  }
}
