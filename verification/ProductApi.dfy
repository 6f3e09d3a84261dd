/**
 The product API client (src/api/productApi.js): the choice of base URL
 and the normalisation of the response body in `getProducts`.

 The body is a JSON-ish value. Only what `getProducts` can observe of it
 is kept: whether it is `undefined` or `null`, whether it is an array,
 and, for an object, the value of its `data` property (`Undefined` when
 the property is absent). Array elements are taken to be product records.
 */
module ProductApi {
  import opened Products
  import opened Optional

  datatype Json =
    | Undefined
    | Null
    | Array(items: seq<Product>)
    | Object(data: Json)
    | Primitive(text: string)

  /** `undefined` and `null`, the two values `??` falls through. */
  predicate IsNullish(j: Json) {
    j.Undefined? || j.Null?
  }

  /** The local development server used when no override is configured. */
  const DefaultBaseUrl: string := "http://localhost:5103"

  const ProductsPath: string := "/api/product"

  /** `VITE_API_BASE_URL ?? "http://localhost:5103"`: the override whenever
      one is set, even the empty string. */
  function BaseUrl(envOverride: Option<string>): (r: string)
    ensures envOverride.Some? ==> r == envOverride.value
    ensures envOverride.None? ==> r == DefaultBaseUrl
  {
    match envOverride
    case Some(url) => url
    case None => DefaultBaseUrl
  }

  /** The target of the product request. */
  function ProductsUrl(envOverride: Option<string>): (r: string)
    ensures |r| >= |ProductsPath| && r[|r| - |ProductsPath|..] == ProductsPath
    ensures r[..|r| - |ProductsPath|] == BaseUrl(envOverride)
  {
    BaseUrl(envOverride) + ProductsPath
  }

  /** `body?.data`: the `data` property of an object; `undefined` for
      anything else, including `null` and `undefined` themselves. */
  function DataField(body: Json): Json {
    match body
    case Object(d) => d
    case _ => Undefined
  }

  /** `response.data?.data ?? response.data ?? []`, as written. */
  function GetProducts(body: Json): (r: Json)
    ensures !IsNullish(r)
    ensures !IsNullish(DataField(body)) ==> r == DataField(body)
    ensures body.Array? ==> r == body
    ensures IsNullish(body) ==> r == Array([])
    ensures body.Object? && IsNullish(body.data) ==> r == body
    ensures body.Primitive? ==> r == body
  {
    var inner := DataField(body);
    if !IsNullish(inner) then inner
    else if !IsNullish(body) then body
    else Array([])
  }

  /** The outcome of `getProducts` is a list exactly when the body is a
      list, is null or undefined (the `?? []` fallback), or is an object
      whose `data` is a list. */
  lemma GetProductsListIff(body: Json)
    ensures GetProducts(body).Array? <==> body.Array? || DataField(body).Array? || IsNullish(body)
  {
  }

  /** An envelope whose `data` is absent or `null` comes back as the
      envelope itself, not as an empty list. */
  lemma EmptyEnvelopeIsReturnedAsIs()
    ensures GetProducts(Object(Undefined)) == Object(Undefined)
    ensures GetProducts(Object(Null)) == Object(Null)
    ensures !GetProducts(Object(Undefined)).Array?
  {
  }

  /** The product list a response body stands for: the `data` list of an
      envelope, a bare list as it is, and the empty list for every other
      shape. */
  function NormalizeProducts(body: Json): (r: seq<Product>)
    ensures DataField(body).Array? ==> r == DataField(body).items
    ensures body.Array? ==> r == body.items
    ensures !body.Array? && !DataField(body).Array? ==> r == []
  {
    match DataField(body)
    case Array(items) => items
    case _ =>
      match body
      case Array(items) => items
      case _ => []
  }

  /** Wherever `getProducts` already yields a list, the normalisation
      yields the same list; it differs only where `getProducts` hands back
      something that is not a list. */
  lemma NormalizeAgreesOnLists(body: Json)
    ensures GetProducts(body).Array? ==> NormalizeProducts(body) == GetProducts(body).items
    ensures !GetProducts(body).Array? ==> NormalizeProducts(body) == []
  {
  }
}
