/** The decisions the HTTP controller makes around the service: the create
    validation, the parsing of status strings, and the mapping of each service
    result to a response. Routing, JSON and the response bodies' text are not
    modelled; a response is an abstract value with an HTTP status code. */
module OrderController {
  import opened Optional
  import opened Status
  import opened OrderModel
  import opened OrderStore
  import Service = OrderService

  datatype Response =
    | Created(order: Order)        // 201 with the created order
    | BadRequest                   // 400 "Invalid order data"
    | Found(orders: seq<Order>)    // 200 with a list of orders
    | Updated(order: Order)        // 200 with the patched order
    | NotFound                     // 404 "Order not found"
    | NoContent                    // 204 "Order deleted successfully"
    | ServerError                  // 500: a store failure propagated uncaught

  function Code(r: Response): int
  {
    match r
    case Created(_) => 201
    case BadRequest => 400
    case Found(_) => 200
    case Updated(_) => 200
    case NotFound => 404
    case NoContent => 204
    case ServerError => 500
  }

  /** A handled request: the store afterwards and the response sent. */
  datatype Reply = Reply(store: Store, response: Response)

  /** The create-time validation: a customer id, and a product list that is
      present and non-empty. */
  predicate IsValidCreate(body: Order)
  {
    body.customerId.Some? && body.products.Some? && |body.products.value| > 0
  }

  /** Shared by the three GET endpoints: an empty list means 404. */
  function ListResponse(orders: seq<Order>): (r: Response)
    ensures Code(r) == 404 <==> |orders| == 0
    ensures Code(r) == 200 <==> |orders| > 0
    ensures |orders| > 0 ==> r == Found(orders)
  {
    if |orders| == 0 then NotFound else Found(orders)
  }

  /** POST /orders. An invalid body is answered 400 without calling the
      service; a valid one is answered 201 with what the service stored,
      unless the store refuses it (a body carrying an id that names no
      stored order), in which case the failure propagates as a 500. */
  function CreateOrder(s: Store, body: Order, now: Timestamp): (r: Reply)
    requires Valid(s)
    ensures Valid(r.store)
    ensures Code(r.response) == 400 <==> !IsValidCreate(body)
    ensures !IsValidCreate(body) ==> r.store == s
    ensures Code(r.response) == 500 <==> IsValidCreate(body) && NamesNoRow(s, body)
    ensures Code(r.response) == 500 ==> r.store == s
    ensures Code(r.response) == 201 <==> IsValidCreate(body) && !NamesNoRow(s, body)
    ensures IsValidCreate(body) && !NamesNoRow(s, body) ==>
              r.response.Created? &&
              Service.CreateOrder(s, body, now) == Saved(r.store, r.response.order)
  {
    if !IsValidCreate(body) then Reply(s, BadRequest)
    else
      match Service.CreateOrder(s, body, now)
      case Saved(s', created) => Reply(s', Created(created))
      case Rejected(_) => Reply(s, ServerError)
  }

  /** GET /orders/{id}: the service is asked for the id with no status
      filter; 404 exactly when the id is not stored. */
  function GetOrderById(s: Store, id: int): (r: Response)
    requires Valid(s)
    ensures Code(r) == 404 <==> id !in s.rows
    ensures Code(r) == 200 <==> id in s.rows
    ensures id in s.rows ==> r == Found([s.rows[id]])
  {
    ListResponse(Service.GetOrders(s, Some(id), None))
  }

  /** GET /orders/get-by-status?status=S. A string that names no status is
      not rejected: it becomes "no filter". */
  function GetOrdersByStatus(s: Store, status: string): (r: Response)
    requires Valid(s)
    ensures Code(r) == 404 <==>
              forall o :: o in s.rows.Values ==> !Service.Matches(ToValidStatus(Some(status)), o)
    ensures r.NotFound? || r.Found?
    ensures r.Found? ==> forall o :: o in r.orders <==>
              o in s.rows.Values && Service.Matches(ToValidStatus(Some(status)), o)
    ensures r.Found? ==> SubsequenceOf(r.orders, FindAll(s))
    ensures r.Found? ==> r.orders == Service.GetOrders(s, None, ToValidStatus(Some(status)))
  {
    var filter := ToValidStatus(Some(status));
    var orders := Service.GetOrders(s, None, filter);
    assert |orders| > 0 ==> orders[0] in orders;
    ListResponse(orders)
  }

  /** GET /orders: every order, 404 exactly when the store is empty. */
  function GetAllOrders(s: Store): (r: Response)
    requires Valid(s)
    ensures Code(r) == 404 <==> |s.rows| == 0
    ensures |s.rows| > 0 ==> r == Found(FindAll(s))
  {
    Service.GetAllIsWholeStore(s);
    ListResponse(Service.GetOrders(s, None, None))
  }

  /** PATCH /orders/{id}?status=S&products=... . An unparsable or missing
      status means "leave the status alone"; missing products mean "leave the
      products alone". 404 exactly when the service reports not-found. */
  function UpdateOrder(s: Store, id: int, status: Option<string>, products: Option<seq<string>>): (r: Reply)
    requires Valid(s)
    ensures Valid(r.store)
    ensures Code(r.response) == 404 <==> id !in s.rows
    ensures Code(r.response) == 404 ==> r.store == s
    ensures Code(r.response) == 200 <==> id in s.rows
    ensures id in s.rows ==> r.response.Updated?
    ensures r.response.Updated? ==> r.store.rows == s.rows[id := r.response.order]
    ensures r.response.Updated? && ToValidStatus(status).None? ==>
              r.response.order.status == s.rows[id].status
    ensures r.response.Updated? && products.None? ==>
              r.response.order.products == s.rows[id].products
    ensures r.response.Updated? && ToValidStatus(status).Some? ==>
              r.response.order.status == ToValidStatus(status)
    ensures r.response.Updated? && products.Some? ==>
              r.response.order.products == products
    ensures r.response.Updated? ==>
              Service.PatchOrder(s, id, ToValidStatus(status), products) ==
              Service.Patched(r.store, Some(r.response.order))
  {
    var patched := Service.PatchOrder(s, id, ToValidStatus(status), products);
    match patched.order
    case None => Reply(patched.store, NotFound)
    case Some(o) => Reply(patched.store, Updated(o))
  }

  /** DELETE /orders/{id}: always 204, whether or not the id was stored. */
  function DeleteOrder(s: Store, id: int): (r: Reply)
    requires Valid(s)
    ensures Code(r.response) == 204
    ensures Valid(r.store) && id !in r.store.rows
    ensures id !in s.rows ==> r.store == s
    ensures forall k :: k in s.rows && k != id ==> k in r.store.rows && r.store.rows[k] == s.rows[k]
    ensures forall k :: k in r.store.rows ==> k in s.rows
    ensures r.store == Service.DeleteOrder(s, id)
  {
    Reply(Service.DeleteOrder(s, id), NoContent)
  }

  /** The leniency of get-by-status: a string that names no status gets
      exactly the answer of GET /orders. */
  lemma UnknownStatusMeansGetAll(s: Store, status: string)
    requires Valid(s)
    requires forall st :: status != Name(st)
    ensures GetOrdersByStatus(s, status) == GetAllOrders(s)
  {
  }

  /** The leniency of patch: a string that names no status patches as if no
      status had been sent. */
  lemma UnknownStatusPatchesNoStatus(s: Store, id: int, status: string, products: Option<seq<string>>)
    requires Valid(s)
    requires forall st :: status != Name(st)
    ensures UpdateOrder(s, id, Some(status), products) == UpdateOrder(s, id, None, products)
  {
  }

  /** A valid create never breaks the store's not-null constraints, so a
      body without an id, or with a stored one, never produces a server
      error; an invalid body never reaches the store. */
  lemma CreateNeverFailsInStore(s: Store, body: Order, now: Timestamp)
    requires Valid(s)
    requires body.id.None? || body.id.value in s.rows
    ensures CreateOrder(s, body, now).response.Created? || CreateOrder(s, body, now).response.BadRequest?
  {
  }

  /** The store's constraint is weaker than the controller's: an order with
      an empty product list passes the not-null check, so only the controller
      refuses it. */
  lemma EmptyProductsOnlyRejectedByController(s: Store, body: Order, now: Timestamp)
    requires Valid(s)
    requires body.customerId.Some? && body.products == Some([])
    requires body.id.None? || body.id.value in s.rows
    ensures Service.CreateOrder(s, body, now).Saved?
    ensures CreateOrder(s, body, now).response == BadRequest
  {
  }
}
