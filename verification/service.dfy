/** The order service: the only holder of business rules. Every operation is
    a pure function of the store (and, for creation, of the current time),
    returning the store it leaves behind together with its result. */
module OrderService {
  import opened Optional
  import opened Status
  import opened OrderModel
  import opened OrderStore

  /** The one status filter shared by the by-id and the full-scan queries:
      no filter, or the record's status equals the filter. */
  predicate Matches(filter: Option<OrderStatus>, o: Order)
  {
    filter.None? || o.status == filter
  }

  /** The accumulation loop of the scan branch: the records of `xs` that pass
      the filter, in scan order. */
  function Select(xs: seq<Order>, filter: Option<OrderStatus>): (r: seq<Order>)
    ensures forall o :: o in r <==> o in xs && Matches(filter, o)
    ensures SubsequenceOf(r, xs)
    ensures |r| <= |xs|
  {
    if |xs| == 0 then []
    else if Matches(filter, xs[0]) then [xs[0]] + Select(xs[1..], filter)
    else
      var rest := Select(xs[1..], filter);
      assert |rest| > 0 ==> rest[0] in rest && rest[0] != xs[0];
      rest
  }

  /** With no filter the scan keeps every record, in order. */
  lemma {:induction false} SelectWithoutFilterKeepsAll(xs: seq<Order>)
    ensures Select(xs, None) == xs
  {
    if |xs| > 0 {
      SelectWithoutFilterKeepsAll(xs[1..]);
      assert xs == [xs[0]] + xs[1..];
    }
  }

  /** `createOrder`: default a missing status to NOWE and a missing creation
      time to `now`, then save. Nothing is validated here; only the store can refuse the
      order, for a broken not-null constraint or an id that names no row. */
  function CreateOrder(s: Store, candidate: Order, now: Timestamp): (r: Saved)
    requires Valid(s)
    ensures r.Rejected? <==> NamesNoRow(s, candidate) || !Persistable(candidate)
    ensures r.Saved? ==> Valid(r.store) && r.store.next >= s.next
    ensures r.Saved? ==> candidate.status.None? ==> r.order.status == Some(NOWE)
    ensures r.Saved? ==> candidate.status.Some? ==> r.order.status == candidate.status
    ensures r.Saved? ==> candidate.createdAt.None? ==> r.order.createdAt == Some(now)
    ensures r.Saved? ==> candidate.createdAt.Some? ==> r.order.createdAt == candidate.createdAt
    ensures r.Saved? ==> r.order.customerId == candidate.customerId
    ensures r.Saved? ==> r.order.products == candidate.products
    ensures r.Saved? ==> r.order.id.Some? && r.store.rows == s.rows[r.order.id.value := r.order]
    ensures r.Saved? && candidate.id.Some? && candidate.id.value in s.rows ==>
              r.order.id == candidate.id && r.store.ids == s.ids && r.store.next == s.next
    ensures r.Saved? && candidate.id.None? ==>
              && r.order.id == Some(s.next) && s.next !in s.rows
              && r.store.ids == s.ids + [s.next] && r.store.next == s.next + 1
  {
    var status := if candidate.status.None? then Some(NOWE) else candidate.status;
    var createdAt := if candidate.createdAt.None? then Some(now) else candidate.createdAt;
    Save(s, candidate.(status := status, createdAt := createdAt))
  }

  /** `getOrders`: with an id, the record under that id if it passes the
      filter; without one, every record of the scan that passes it. The store
      is an input only, so the query cannot change it. */
  function GetOrders(s: Store, id: Option<int>, filter: Option<OrderStatus>): (r: seq<Order>)
    requires Valid(s)
    ensures forall o :: o in r ==> Matches(filter, o) && o in s.rows.Values
    ensures id.None? ==> forall o :: o in s.rows.Values && Matches(filter, o) ==> o in r
    ensures id.None? ==> SubsequenceOf(r, FindAll(s))
    ensures id.Some? ==> |r| <= 1
    ensures id.Some? ==> (|r| == 1 <==> id.value in s.rows && Matches(filter, s.rows[id.value]))
    ensures id.Some? && |r| == 1 ==> r[0] == s.rows[id.value]
  {
    match id
    case Some(k) =>
      (match FindById(s, k)
       case Some(o) => if Matches(filter, o) then [o] else []
       case None => [])
    case None => Select(FindAll(s), filter)
  }

  /** The full scan without a filter is the whole store in insertion order. */
  lemma GetAllIsWholeStore(s: Store)
    requires Valid(s)
    ensures GetOrders(s, None, None) == FindAll(s)
    ensures |GetOrders(s, None, None)| == |s.rows|
  {
    SelectWithoutFilterKeepsAll(FindAll(s));
  }

  /** The outcome of `patchOrder`: the store afterwards and the updated
      order, or None (Java's null) when the id is unknown. */
  datatype Patched = Patched(store: Store, order: Option<Order>)

  /** `patchOrder`: overwrite the status if one is given and replace the
      product list WHOLESALE if one is given (never merged with the old list),
      then save. An unknown id yields None and nothing is written. */
  function PatchOrder(s: Store, id: int, status: Option<OrderStatus>, products: Option<seq<string>>): (r: Patched)
    requires Valid(s)
    ensures Valid(r.store) && r.store.next == s.next && r.store.ids == s.ids
    ensures r.order.None? <==> id !in s.rows
    ensures r.order.None? ==> r.store == s
    ensures r.order.Some? ==> r.store.rows == s.rows[id := r.order.value]
    ensures r.order.Some? ==> status.Some? ==> r.order.value.status == status
    ensures r.order.Some? ==> status.None? ==> r.order.value.status == s.rows[id].status
    ensures r.order.Some? ==> products.Some? ==> r.order.value.products == products
    ensures r.order.Some? ==> products.None? ==> r.order.value.products == s.rows[id].products
    ensures r.order.Some? ==>
              && r.order.value.id == Some(id)
              && r.order.value.customerId == s.rows[id].customerId
              && r.order.value.createdAt == s.rows[id].createdAt
  {
    match FindById(s, id)
    case None => Patched(s, None)
    case Some(current) =>
      var updated := current.(
        status := if status.Some? then status else current.status,
        products := if products.Some? then products else current.products);
      var saved := Save(s, updated);
      Patched(saved.store, Some(saved.order))
  }

  /** `deleteOrder`: idempotent removal; an unknown id is not an error. */
  function DeleteOrder(s: Store, id: int): (r: Store)
    requires Valid(s)
    ensures Valid(r) && r.next == s.next
    ensures id !in r.rows
    ensures forall k :: k in s.rows && k != id ==> k in r.rows && r.rows[k] == s.rows[k]
    ensures forall k :: k in r.rows ==> k in s.rows
    ensures id !in s.rows ==> r == s
    ensures r.ids == Without(s.ids, id) && SubsequenceOf(r.ids, s.ids)
  {
    DeleteById(s, id)
  }

  /** Deleting twice is the same as deleting once. */
  lemma DeleteIsIdempotent(s: Store, id: int)
    requires Valid(s)
    ensures DeleteOrder(DeleteOrder(s, id), id) == DeleteOrder(s, id)
  {
  }

  /** Round trip: the created order is what a lookup by its id returns. */
  lemma CreateThenGet(s: Store, candidate: Order, now: Timestamp)
    requires Valid(s)
    requires Persistable(candidate) && !NamesNoRow(s, candidate)
    ensures CreateOrder(s, candidate, now).Saved?
    ensures var r := CreateOrder(s, candidate, now);
            GetOrders(r.store, r.order.id, None) == [r.order]
  {
  }

  /** A lookup after a patch returns the patched order. */
  lemma PatchThenGet(s: Store, id: int, status: Option<OrderStatus>, products: Option<seq<string>>)
    requires Valid(s)
    requires id in s.rows
    ensures var r := PatchOrder(s, id, status, products);
            r.order.Some? && GetOrders(r.store, Some(id), None) == [r.order.value]
  {
  }

  /** A patch that gives neither a status nor products writes the record back unchanged. */
  lemma EmptyPatchChangesNothing(s: Store, id: int)
    requires Valid(s)
    ensures PatchOrder(s, id, None, None).store == s
  {
  }

  /** After a delete, a lookup by that id finds nothing, whatever the filter. */
  lemma DeleteThenGet(s: Store, id: int, filter: Option<OrderStatus>)
    requires Valid(s)
    ensures GetOrders(DeleteOrder(s, id), Some(id), filter) == []
  {
  }
}
