/**
 The product record served by the product API and shown in the table.
 Prices are whole numbers here; see README.md for what that leaves out.
 */
module Products {

  datatype Product = Product(id: int, name: string, category: string, price: int)

  /** The category of every product, in list order (`products.map(p => p.category)`). */
  function CategoryColumn(products: seq<Product>): (r: seq<string>)
    ensures |r| == |products|
    ensures forall i :: 0 <= i < |products| ==> r[i] == products[i].category
  {
    seq(|products|, i requires 0 <= i < |products| => products[i].category)
  }
}
