# Order management: a Dafny model

A model of the order-management core of a small Spring CRUD service. Clients
create, query, patch and delete *orders*. An order has a store-generated id,
a customer id, a list of product identifiers, a creation time and a status
drawn from a closed four-value vocabulary (NOWE, W_TRAKCIE, ZAKONCZONE,
ANULOWANE).

The model is functional. Every operation is a pure function from the store
(and its inputs) to the store it leaves behind plus its result. Frame
conditions such as "nothing else changes" and "nothing is written" are
therefore statements about the returned store.

| file | module | models |
|---|---|---|
| optional.dfy | `Optional` | Java's `Optional` and nullable references |
| status.dfy | `Status` | the `OrderStatus` enum and its parser `toValidStatus` |
| order.dfy | `OrderModel` | the `Order` entity and its not-null constraints |
| store.dfy | `OrderStore` | the repository: a map from id to order, the insertion-ordered ids, and the identity counter |
| service.dfy | `OrderService` | `createOrder`, `getOrders`, `patchOrder`, `deleteOrder` |
| controller.dfy | `OrderController` | the controller's decisions: create validation, status parsing, and mapping results to HTTP codes |

The store invariant `OrderStore.Valid` states the following:
- the scan order lists every stored id exactly once;
- every id is below the identity counter, so ids are never reused;
- every record carries its own id;
- every record has a customer id and a product list.

Every operation that writes the store preserves this invariant.

Two facts about the code are worth stating up front:
- Status names are the enum's constants NOWE, W_TRAKCIE, ZAKONCZONE and ANULOWANE.
- The service does not check that `products` is non-empty. Only the controller's create validation does. A patch may set an empty product list.

## Model

| member | source | states |
|---|---|---|
| Status.ToValidStatus | src/main/java/com/technischools/marcel/order/model/OrderStatus.java:8-17 | never fails; a null string gives empty; the result is `Some(s)` exactly when the input is the name of `s`, so any other string, including another letter case, gives empty |
| Status.VocabularyIsClosed | src/main/java/com/technischools/marcel/order/model/OrderStatus.java:5-6 | there are exactly four statuses, every status is one of them, and their names are pairwise distinct |
| Status.ParseRoundTrip | src/main/java/com/technischools/marcel/order/model/OrderStatus.java:13 | parsing a status's own name gives that status back |
| Status.ParseIsInjective | src/main/java/com/technischools/marcel/order/model/OrderStatus.java:13 | two inputs that parse to the same status are the same string |
| Status.ParseIsCaseSensitive | src/main/java/com/technischools/marcel/order/model/OrderStatus.java:12-16 | no status name holds a lower-case letter, so every string holding one parses to empty rather than an error; in particular the lower-cased and the capitalised name of every status do; the empty string parses to empty too |
| OrderStore.Save | src/main/java/com/technischools/marcel/order/model/Order.java:20-32 | an order that breaks a not-null constraint, or carries an id that names no stored record, is refused and nothing is written; an order without an id gets the next identity value, which is then used up, and is appended to the scan order; an order with a stored id replaces that record; no other field changes; the invariant is kept |
| OrderStore.FindById | src/main/java/com/technischools/marcel/order/repository/OrderRepository.java:6 | finds a record exactly when the id is stored, and that record carries the id |
| OrderStore.FindAll | src/main/java/com/technischools/marcel/order/repository/OrderRepository.java:6 | lists every stored record exactly once, in insertion order |
| OrderStore.DeleteById | src/main/java/com/technischools/marcel/order/repository/OrderRepository.java:6 | removes exactly the given id and keeps every other record; the surviving ids keep their scan order; an absent id leaves the store identical; the identity counter is untouched |
| OrderService.Select | src/main/java/com/technischools/marcel/order/service/OrderService.java:45-50 | the scan keeps exactly the records that pass the shared filter (soundness and completeness), in scan order |
| OrderService.SelectWithoutFilterKeepsAll | src/main/java/com/technischools/marcel/order/service/OrderService.java:45-50 | with no filter, the scan returns its input unchanged |
| OrderService.CreateOrder | src/main/java/com/technischools/marcel/order/service/OrderService.java:25-35 | a missing status becomes NOWE and a given one is kept; a missing creation time becomes `now` and a given one is kept; customer id and products are untouched; one record is written: a candidate whose id is stored replaces that record and keeps the scan order; a candidate without an id is appended under the next identity value; only the store can refuse, exactly when a not-null constraint breaks or the candidate's id names no stored record |
| OrderService.GetOrders | src/main/java/com/technischools/marcel/order/service/OrderService.java:37-53 | every result is a stored record that passes the filter; without an id, every passing record is returned in scan order; with an id, the result has at most one record, and has one exactly when that id is stored and passes the filter |
| OrderService.GetAllIsWholeStore | src/main/java/com/technischools/marcel/order/service/OrderService.java:45-50 | with neither id nor filter, the result is the whole store in insertion order |
| OrderService.PatchOrder | src/main/java/com/technischools/marcel/order/service/OrderService.java:56-62 | an unknown id gives not-found and leaves the store identical; otherwise the status is overwritten exactly when given, products are replaced wholesale exactly when given, and id, customer id and creation time are kept; all other records and the scan order are unchanged |
| OrderService.DeleteOrder | src/main/java/com/technischools/marcel/order/service/OrderService.java:65-67 | the id is absent afterwards, every other record is kept, and the surviving ids keep their scan order; an unknown id leaves the store identical |
| OrderService.DeleteIsIdempotent | src/main/java/com/technischools/marcel/order/service/OrderService.java:65-67 | deleting twice equals deleting once |
| OrderService.CreateThenGet | src/main/java/com/technischools/marcel/order/service/OrderService.java:25-53 | when the store accepts the candidate, a lookup by the created order's id returns exactly that order |
| OrderService.PatchThenGet | src/main/java/com/technischools/marcel/order/service/OrderService.java:56-62 | a lookup after a patch returns exactly the patched order |
| OrderService.EmptyPatchChangesNothing | src/main/java/com/technischools/marcel/order/service/OrderService.java:59-61 | a patch with neither status nor products writes the record back unchanged |
| OrderService.DeleteThenGet | src/main/java/com/technischools/marcel/order/service/OrderService.java:65-67 | after a delete, a lookup by that id is empty whatever the filter |
| OrderController.ListResponse | src/main/java/com/technischools/marcel/order/controller/OrderController.java:62-66 | an empty list is answered 404, and a non-empty one 200 carrying exactly that list |
| OrderController.CreateOrder | src/main/java/com/technischools/marcel/order/controller/OrderController.java:40-48 | answers 400 exactly when the customer id is missing or the products are missing or empty, and then the store is untouched; a valid body whose id names no stored order is refused by the store and answered 500 with the store untouched; any other valid body is answered 201 carrying exactly what the service stored |
| OrderController.GetOrderById | src/main/java/com/technischools/marcel/order/controller/OrderController.java:58-67 | answers 404 exactly when the id is not stored, otherwise 200 carrying exactly a one-element list of that order |
| OrderController.GetOrdersByStatus | src/main/java/com/technischools/marcel/order/controller/OrderController.java:77-86 | answers 404 exactly when no stored order passes the parsed filter; otherwise 200 carrying the service's list, which holds exactly the stored orders that pass the filter, in scan order |
| OrderController.GetAllOrders | src/main/java/com/technischools/marcel/order/controller/OrderController.java:96-103 | answers 404 exactly when the store is empty, otherwise 200 carrying exactly the whole store in insertion order |
| OrderController.UpdateOrder | src/main/java/com/technischools/marcel/order/controller/OrderController.java:112-125 | answers 404 exactly when the id is not stored, and then nothing changes; otherwise 200 carrying the order the service patched; a status that parses is applied and an unparsable one leaves the status alone; given products replace the list and missing ones leave it alone |
| OrderController.DeleteOrder | src/main/java/com/technischools/marcel/order/controller/OrderController.java:133-138 | always answers 204; the store is the service's delete result: the id is absent afterwards, every other record is kept, and an unknown id leaves the store identical |
| OrderController.UnknownStatusMeansGetAll | src/main/java/com/technischools/marcel/order/controller/OrderController.java:77-103 | a status string that names no status gets exactly the answer of get-all |
| OrderController.UnknownStatusPatchesNoStatus | src/main/java/com/technischools/marcel/order/controller/OrderController.java:119 | a patch with a status string that names no status acts as a patch with no status |
| OrderController.CreateNeverFailsInStore | src/main/java/com/technischools/marcel/order/controller/OrderController.java:43-47 | a create whose body has no id, or a stored one, is answered either 201 or 400, never a store failure |
| OrderController.EmptyProductsOnlyRejectedByController | src/main/java/com/technischools/marcel/order/controller/OrderController.java:43-45 | an order with an empty product list (and no id, or a stored one) would be stored by the service, but the controller refuses it with 400 |

## Left out

- Spring wiring, request routing, dependency injection, JSON (de)serialisation and the response bodies' text are not modelled. A response is an abstract value carrying its HTTP code.
- `LocalDateTime.now()` is not called. The current time is a `now` parameter of creation, and timestamps are opaque values.
- Concurrency and transactions are not modelled. Each operation runs alone, so a concurrent patch cannot be lost in the model, although the code allows it (the last write wins).
- `Long` and `Integer` widths are not modelled. Ids and customer ids are unbounded integers, and the identity counter never overflows.
- Store failures other than a broken not-null constraint and a merge that finds no row are not modelled, for example an unreachable database. The two that are modelled propagate to the client as a 500 answer.
- OrderStore.Save: the repository is a library interface whose code is not part of this model. Its behaviour follows the contract of a JPA repository with a generated identity, as Hibernate 6.6 implements it: a null id is inserted and a stored id is merged. Merging an order whose id the database does not hold is an optimistic-locking failure, not an insert. The not-null constraints are checked when the order is written, which assumes bean validation is active. Both are assumptions about that library. Hibernate before 6.6 would instead insert such an order under a fresh id.
- OrderStore.FindAll: the repository's `findAll()` is called without a sort, so the database promises no order. The model's scan order is insertion order, and an update keeps a record's place in it. This is an assumption of the abstract store.
- The older drafts in the root package (`OrderService`, `Order`, `OrderController`) are superseded, so they are not modelled. So is the duplicate controller in the `order` package. Its combined GET is `OrderService.GetOrders` with an optional id and filter.
- `OpenAPIConfiguration` holds only documentation metadata, so it is not modelled.
