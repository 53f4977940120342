/** The product store as the availability handler sees it: the `inventories`
    collection reduced to each product's stock quantity, looked up by id. */
module Store {

  type ProductId = string

  /** What `Product.findById(id)` settles to. */
  datatype Lookup = Found(quantity: int) | NotFound | Failed

  /** The collection at evaluation time. `stock` maps each stored product's id
      to its quantity; a lookup of an id in `rejecting` rejects instead of
      resolving (the store is unreachable, or the id is not a well-formed
      identifier and the query cannot be built). */
  datatype Catalog = Catalog(stock: map<ProductId, int>, rejecting: set<ProductId>)

  /** `Product.findById(id)`. */
  function FindById(c: Catalog, id: ProductId): (r: Lookup)
    ensures r == Failed <==> id in c.rejecting
    ensures r == NotFound <==> id !in c.rejecting && id !in c.stock
    ensures r.Found? ==> id in c.stock && r.quantity == c.stock[id]
  {
    if id in c.rejecting then Failed
    else if id in c.stock then Found(c.stock[id])
    else NotFound
  }
}
