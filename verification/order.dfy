/** The Order record. One class serves both as the incoming request body and
    as the persisted entity, so every field Java allows to be null is optional. */
module OrderModel {
  import opened Optional
  import opened Status

  /** A creation time. The clock is not modelled; timestamps are opaque values
      that are only stored and compared. */
  datatype Timestamp = Timestamp(ticks: int)

  datatype Order = Order(
    id: Option<int>,                 // generated by the store on first save
    customerId: Option<int>,         // @NotNull
    products: Option<seq<string>>,   // @NotNull; may be empty
    createdAt: Option<Timestamp>,
    status: Option<OrderStatus>)

  /** The @NotNull constraints on the entity: what the persistence layer
      insists on before it will write an order. Non-emptiness of `products`
      is not part of it. */
  predicate Persistable(o: Order)
  {
    o.customerId.Some? && o.products.Some?
  }
}
