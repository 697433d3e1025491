/** The product manager: an ordered, in-memory catalog that rewrites its backing store after every
    successful change. */
module Manager {
  import opened Wrappers
  import opened Products
  import Catalog
  import Search
  import PriceSort
  import Sequences

  class ProductManager {
    /** Where the catalog is stored. Reading and writing the store are not modelled. */
    const filePath: string
    /** The live catalog, in insertion order. */
    var products: seq<Product>
    /** The catalog as last written to the store; `None` until a write when the store could not be
        read at start-up. */
    ghost var saved: Option<seq<Product>>

    /** Starts from what was read from the store (`loaded`, `None` when it could not be read or
        parsed), or from an empty catalog. */
    constructor (filePath: string, loaded: Option<seq<Product>>)
      ensures this.filePath == filePath
      ensures products == (if loaded.Some? then loaded.value else [])
      ensures saved == loaded
    {
      this.filePath := filePath;
      products := if loaded.Some? then loaded.value else [];
      saved := loaded;
    }

    /** Writes the whole catalog to the store. */
    method SaveProductsToFile()
      modifies this`saved
      ensures saved == Some(products)
    {
      saved := Some(products);
    }

    /** A mutation took effect as `r` says: on success the catalog is the new sequence and has been
        saved; on failure the error is reported and neither the catalog nor the store changed. */
    twostate predicate Committed(r: Result<seq<Product>, Error>, res: Outcome<Error>)
      reads this
    {
      match r
      case Success(s) => res == Pass && products == s && saved == Some(s)
      case Failure(e) => res == Fail(e) && products == old(products) && saved == old(saved)
    }

    /** The live catalog itself, in insertion order. */
    function GetProducts(): (r: seq<Product>)
      reads this
      ensures r == products
    {
      products
    }

    /** Creates a product with the caller's `id` (the source draws it at random and never checks it). */
    method AddProduct(title: string, description: string, price: int, thumbnail: string, code: string,
                      stock: int, id: string) returns (res: Outcome<Error>)
      modifies this`products, this`saved
      ensures res.Fail? <==> exists k :: 0 <= k < |old(products)| && old(products)[k].code == code
      ensures Committed(Catalog.Add(old(products), Product(title, description, price, thumbnail, code, stock, id)), res)
    {
      if Catalog.HasCode(products, code) {
        return Fail(DuplicateCode);
      }
      var newProduct := Product(title, description, price, thumbnail, code, stock, id);
      products := products + [newProduct];
      SaveProductsToFile();
      res := Pass;
    }

    /** The first product carrying `productId`, or `NotFound`. */
    function GetProductById(productId: string): (r: Result<Product, Error>)
      reads this
      ensures r.Failure? <==> forall k :: 0 <= k < |products| ==> products[k].id != productId
      ensures r.Failure? ==> r.error == NotFound
      ensures r.Success? ==> var i := Catalog.IndexOfId(products, productId);
        r.value == products[i] && r.value.id == productId &&
        forall k :: 0 <= k < i ==> products[k].id != productId
    {
      Catalog.Lookup(products, productId)
    }

    /** Merges `updatedFields` into the first product carrying `productId` and saves. */
    method UpdateProduct(productId: string, updatedFields: Patch) returns (res: Outcome<Error>)
      modifies this`products, this`saved
      ensures res.Fail? <==> forall k :: 0 <= k < |old(products)| ==> old(products)[k].id != productId
      ensures Committed(Catalog.Update(old(products), productId, updatedFields), res)
    {
      var productIndex := Catalog.IndexOfId(products, productId);
      if productIndex == -1 {
        return Fail(NotFound);
      }
      products := products[productIndex := Merge(products[productIndex], updatedFields)];
      SaveProductsToFile();
      res := Pass;
    }

    /** Removes the first product carrying `productId` and saves. */
    method DeleteProduct(productId: string) returns (res: Outcome<Error>)
      modifies this`products, this`saved
      ensures res.Fail? <==> forall k :: 0 <= k < |old(products)| ==> old(products)[k].id != productId
      ensures Committed(Catalog.Delete(old(products), productId), res)
    {
      var productIndex := Catalog.IndexOfId(products, productId);
      if productIndex == -1 {
        return Fail(NotFound);
      }
      products := products[..productIndex] + products[productIndex + 1..];
      SaveProductsToFile();
      res := Pass;
    }

    /** The products whose title or description includes `query`, ignoring ASCII case, in catalog order. */
    function SearchProducts(query: string): (r: seq<Product>)
      reads this
      ensures Sequences.IsSubsequence(r, products)
      ensures forall i :: 0 <= i < |r| ==> Search.Matches(r[i], query)
      ensures forall p :: multiset(r)[p] == if Search.Matches(p, query) then multiset(products)[p] else 0
    {
      Search.SearchIsSubsequence(products, query);
      Search.SearchCounts(products, query);
      Search.Search(products, query)
    }

    /** A copy of the catalog sorted by price: ascending for "asc" (the default), descending for
        any other order; products of equal price keep their catalog order. */
    function SortProductsByPrice(order: string := "asc"): (r: seq<Product>)
      reads this
      ensures multiset(r) == multiset(products)
      ensures forall i, j :: 0 <= i < j < |r| ==>
        if order == "asc" then r[i].price <= r[j].price else r[i].price >= r[j].price
      ensures forall v :: PriceSort.WithPrice(r, v) == PriceSort.WithPrice(products, v)
    {
      var ascending := order == "asc";
      PriceSort.SortIsStable(products, ascending);
      PriceSort.SortOrdered(products, ascending);
      PriceSort.OrderedPrices(PriceSort.SortByPrice(products, ascending), ascending);
      PriceSort.SortByPrice(products, ascending)
    }
  }
}
