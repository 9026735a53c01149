/** The three lookup endpoints: `/api/top-products`,
    `/api/order-status/:id` and `/api/stock?name=`. Each is a pure function
    of its request input and the store, which it only reads. */
module Endpoints {
  import opened Wrappers
  import opened Text
  import opened Records
  import opened Http

  /** The stock figure every stock answer reports: a fixed placeholder,
      since orders do not say which product they contain. */
  const EstimatedStock: nat := 500

  const TopProductsError := "Order data does not include product references. Cannot compute top products."
  const OrderNotFound := "Order not found"
  const MissingName := "Missing product name query parameter"
  const ProductNotFound := "Product not found"

  /** `GET /api/top-products`: the same error object with status 200,
      whatever the store holds, including an empty store. */
  function TopProducts(store: Store): (r: Response)
    ensures r.status == 200 && r.body.ErrorBody?
    ensures r.body.error == TopProductsError
  {
    Ok(ErrorBody(TopProductsError))
  }

  /** `GET /api/order-status/:id`: the first order whose `order_id` is
      exactly `id` (string equality, no numeric conversion) with its
      status, or 404. */
  function OrderStatus(store: Store, id: string): (r: Response)
    ensures r.status == 200 <==> exists k :: 0 <= k < |store.orders| && HasOrderId(store.orders[k], id)
    ensures r.status == 200 ==>
      exists k :: && 0 <= k < |store.orders|
                  && HasOrderId(store.orders[k], id)
                  && (forall j :: 0 <= j < k ==> !HasOrderId(store.orders[j], id))
                  && r.body == OrderBody(id, Field(store.orders[k], "status"))
    ensures r.status != 200 ==> r == Response(404, ErrorBody(OrderNotFound))
  {
    match FindOrder(store.orders, id)
    case Some(k) => Ok(OrderBody(store.orders[k]["order_id"], Field(store.orders[k], "status")))
    case None => Response(404, ErrorBody(OrderNotFound))
  }

  /** `GET /api/stock?name=`: 400 when `name` is missing or empty (both
      falsy), otherwise the first product whose name equals `name` ignoring
      case, reported under its stored name with the fixed estimate, or 404. */
  function StockEstimate(store: Store, name: Option<string>): (r: Response)
    ensures r.status == 400 <==> name.None? || name.value == ""
    ensures r.status == 400 ==> r.body == ErrorBody(MissingName)
    ensures r.status == 200 <==>
      && name.Some? && name.value != ""
      && exists k :: 0 <= k < |store.products| && NameEqualsIgnoringCase(store.products[k], name.value)
    ensures r.status == 200 ==>
      exists k :: && 0 <= k < |store.products|
                  && NameEqualsIgnoringCase(store.products[k], name.value)
                  && (forall j :: 0 <= j < k ==> !NameEqualsIgnoringCase(store.products[j], name.value))
                  && r.body == StockBody(store.products[k]["name"], 500)
    ensures r.status != 200 && r.status != 400 ==> r == Response(404, ErrorBody(ProductNotFound))
  {
    if name.None? || name.value == "" then
      Response(400, ErrorBody(MissingName))
    else
      match FindProductByName(store.products, name.value)
      case Some(k) => Ok(StockBody(store.products[k]["name"], EstimatedStock))
      case None => Response(404, ErrorBody(ProductNotFound))
  }

  /** Before the CSV files have loaded both sequences are empty, and every
      order lookup and every stock lookup with a non-empty name answers
      404. */
  lemma EmptyStoreFindsNothing(id: string, name: string)
    requires name != ""
    ensures OrderStatus(Store([], []), id).status == 404
    ensures StockEstimate(Store([], []), Some(name)).status == 404
  {
  }
}
