/** The abstract keyed store behind the service: the contract of a JPA
    repository for Order with a database-generated identity column. Records
    are kept in a map from id to order; `ids` remembers insertion order, which
    is the order of a full scan; `next` is the identity counter, so an id is
    never handed out twice. */
module OrderStore {
  import opened Optional
  import opened OrderModel

  datatype Store = Store(rows: map<int, Order>, ids: seq<int>, next: int)

  /** Why the persistence layer refuses to write an order: a not-null
      constraint is broken, or the order carries an id that names no stored
      row (a merge that finds no row is an optimistic-locking failure). */
  datatype Violation = NullCustomerId | NullProducts | NoSuchRow

  /** The outcome of `save`: the new store and the order as stored, or a
      refusal that leaves nothing written. */
  datatype Saved = Saved(store: Store, order: Order) | Rejected(violation: Violation)

  /** `a` lists some of the elements of `b`, in the order `b` lists them. */
  ghost predicate SubsequenceOf<T>(a: seq<T>, b: seq<T>)
    decreases |b|
  {
    |a| == 0 ||
    (|b| > 0 &&
     if a[0] == b[0] then SubsequenceOf(a[1..], b[1..]) else SubsequenceOf(a, b[1..]))
  }

  ghost predicate NoDuplicates(xs: seq<int>)
  {
    forall i, j :: 0 <= i < j < |xs| ==> xs[i] != xs[j]
  }

  /** The store invariant: the scan order lists every stored id exactly once,
      every id is below the counter, every record knows its own id, and every
      record satisfies the entity's not-null constraints. */
  ghost predicate Valid(s: Store)
  {
    && 1 <= s.next
    && NoDuplicates(s.ids)
    && (forall i :: 0 <= i < |s.ids| ==> s.ids[i] in s.rows)
    && (forall k :: k in s.rows ==> k in s.ids)
    && (forall k :: k in s.rows ==> 1 <= k < s.next)
    && (forall k :: k in s.rows ==> s.rows[k].id == Some(k) && Persistable(s.rows[k]))
  }

  /** A fresh database: no records, identity counter at 1. */
  function Empty(): (s: Store)
    ensures Valid(s)
    ensures |s.rows| == 0 && |s.ids| == 0
  {
    Store(map[], [], 1)
  }

  /** `findById` */
  function FindById(s: Store, id: int): (r: Option<Order>)
    requires Valid(s)
    ensures r.Some? <==> id in s.rows
    ensures r.Some? ==> r.value.id == Some(id) && r.value == s.rows[id]
  {
    if id in s.rows then Some(s.rows[id]) else None
  }

  /** `findAll`: every stored record, once each, in insertion order. */
  function FindAll(s: Store): (r: seq<Order>)
    requires Valid(s)
    ensures |r| == |s.ids| == |s.rows|
    ensures forall i :: 0 <= i < |r| ==> r[i] == s.rows[s.ids[i]]
    ensures forall o :: o in r <==> o in s.rows.Values
  {
    var r := seq(|s.ids|, i requires 0 <= i < |s.ids| => s.rows[s.ids[i]]);
    ScanCoversStore(s, r);
    r
  }

  lemma ScanCoversStore(s: Store, r: seq<Order>)
    requires Valid(s)
    requires |r| == |s.ids|
    requires forall i :: 0 <= i < |r| ==> r[i] == s.rows[s.ids[i]]
    ensures |s.ids| == |s.rows|
    ensures forall o :: o in r <==> o in s.rows.Values
  {
    IdsAreKeys(s.ids, s.rows.Keys);
    forall o | o in s.rows.Values
      ensures o in r
    {
      var k :| k in s.rows && s.rows[k] == o;
      var i :| 0 <= i < |s.ids| && s.ids[i] == k;
      assert r[i] == o;
    }
  }

  /** A duplicate-free sequence listing exactly the elements of a set is as
      long as the set is large. */
  lemma {:induction false} IdsAreKeys(xs: seq<int>, keys: set<int>)
    requires NoDuplicates(xs)
    requires forall x :: x in xs <==> x in keys
    ensures |xs| == |keys|
  {
    if |xs| > 0 {
      var rest := xs[1..];
      assert forall x :: x in rest <==> x in keys - {xs[0]} by {
        forall x
          ensures x in rest <==> x in keys - {xs[0]}
        {
          if x in rest {
            var j :| 0 <= j < |rest| && rest[j] == x;
            assert xs[j + 1] == x;
          }
          if x in keys - {xs[0]} {
            var j :| 0 <= j < |xs| && xs[j] == x;
            assert j != 0;
            assert rest[j - 1] == x;
          }
        }
      }
      IdsAreKeys(rest, keys - {xs[0]});
    } else {
      assert forall x :: x !in keys;
      assert keys == {};
    }
  }

  /** The order carries an id, but no stored record has it. */
  predicate NamesNoRow(s: Store, o: Order)
  {
    o.id.Some? && o.id.value !in s.rows
  }

  /** `save`: an order without an id is inserted under the next identity
      value; an order whose id is stored replaces that record (a merge). An
      order carrying an id the store does not hold is refused, since the
      merge finds no row; so is an order that breaks the not-null
      constraints. A refusal writes nothing. */
  function Save(s: Store, o: Order): (r: Saved)
    requires Valid(s)
    ensures r.Rejected? <==> NamesNoRow(s, o) || !Persistable(o)
    ensures r.Rejected? && NamesNoRow(s, o) ==> r.violation == NoSuchRow
    ensures r.Saved? ==> Valid(r.store)
    ensures r.Saved? ==> r.order == o.(id := r.order.id)
    ensures r.Saved? ==> r.order.id.Some? && r.store.rows == s.rows[r.order.id.value := r.order]
    ensures r.Saved? && o.id.Some? && o.id.value in s.rows ==>
              r.order.id == o.id && r.store.ids == s.ids && r.store.next == s.next
    ensures r.Saved? && o.id.None? ==>
              && r.order.id == Some(s.next) && s.next !in s.rows
              && r.store.ids == s.ids + [s.next] && r.store.next == s.next + 1
  {
    if NamesNoRow(s, o) then Rejected(NoSuchRow)
    else if o.customerId.None? then Rejected(NullCustomerId)
    else if o.products.None? then Rejected(NullProducts)
    else if o.id.Some? then
      Saved(Store(s.rows[o.id.value := o], s.ids, s.next), o)
    else
      var stored := o.(id := Some(s.next));
      var s' := Store(s.rows[s.next := stored], s.ids + [s.next], s.next + 1);
      assert Valid(s') by {
        forall i, j | 0 <= i < j < |s'.ids|
          ensures s'.ids[i] != s'.ids[j]
        {
          if j == |s.ids| {
            assert s'.ids[i] == s.ids[i];
          }
        }
      }
      Saved(s', stored)
  }

  /** Removes every occurrence of `k`, keeping the others in order. */
  function Without(xs: seq<int>, k: int): (r: seq<int>)
    ensures forall x :: x in r <==> x in xs && x != k
    ensures k !in xs ==> r == xs
    ensures NoDuplicates(xs) ==> NoDuplicates(r)
    ensures SubsequenceOf(r, xs)
  {
    if |xs| == 0 then []
    else if xs[0] == k then
      var rest := Without(xs[1..], k);
      assert |rest| > 0 ==> rest[0] in rest && rest[0] != xs[0];
      rest
    else
      var rest := Without(xs[1..], k);
      assert NoDuplicates(xs) ==> xs[0] !in xs[1..];
      var r := [xs[0]] + rest;
      assert r[1..] == rest;
      r
  }

  /** `deleteById`: removes the record if there is one; an absent id is
      silently ignored. The surviving ids keep their scan order, and the
      identity counter is untouched, so a deleted id is never reissued. */
  function DeleteById(s: Store, id: int): (r: Store)
    requires Valid(s)
    ensures Valid(r)
    ensures r.rows.Keys == s.rows.Keys - {id}
    ensures forall k :: k in r.rows ==> r.rows[k] == s.rows[k]
    ensures id !in s.rows ==> r == s
    ensures r.next == s.next
    ensures r.ids == Without(s.ids, id) && SubsequenceOf(r.ids, s.ids)
  {
    var ids := Without(s.ids, id);
    assert forall i :: 0 <= i < |ids| ==> ids[i] in ids && ids[i] in s.ids && ids[i] != id;
    Store(s.rows - {id}, ids, s.next)
  }
}
