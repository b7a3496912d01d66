/**
 * The stored records of the restaurant back end and the rules their schemas impose:
 * required fields, enumerations, ranges and defaults.  A `create` on a collection
 * first fills in the defaults and then validates; a document that fails validation
 * is not stored (the caller sees a server error).
 */
module Models {
  import opened Wrappers
  import Text

  /** A point in time, in milliseconds, as `Date.now()` gives it. */
  type Time = int

  const MinuteMs: int := 60 * 1000

  /** A JavaScript string is truthy when it is present and not empty. */
  predicate Truthy(s: Option<string>) {
    s.Some? && s.value != []
  }

  /** The two fulfilment modes; the schema's `enum` on `type`. */
  datatype OrderType = DineIn | TakeAway

  /* ----------------------------------------------------------------------
     Table
     ---------------------------------------------------------------------- */

  /** A dining table; `reservedAt` is absent when the table is free. */
  datatype Table = Table(id: nat, number: int, chairs: int, isReserved: bool, reservedAt: Option<Time>)

  /** The schema's `enum: [2, 4, 6]` on `chairs`. */
  predicate ValidChairs(chairs: int) {
    chairs == 2 || chairs == 4 || chairs == 6
  }

  /** A table is reserved exactly when it carries a reservation time. */
  predicate ReservationConsistent(t: Table) {
    t.isReserved <==> t.reservedAt.Some?
  }

  /**
   * `Table.create`: `number` and `chairs` are required, `chairs` must be 2, 4 or 6,
   * `isReserved` defaults to false and `reservedAt` has no default.
   */
  function NewTable(id: nat, number: Option<int>, chairs: Option<int>,
                    isReserved: Option<bool>, reservedAt: Option<Time>): (r: Option<Table>)
    ensures r.Some? <==> number.Some? && chairs.Some? && ValidChairs(chairs.value)
    ensures r.Some? ==> && r.value.id == id
                        && r.value.number == number.value
                        && r.value.chairs == chairs.value
                        && ValidChairs(r.value.chairs)
                        && r.value.isReserved == isReserved.GetOr(false)
                        && r.value.reservedAt == reservedAt
  {
    if number.None? || chairs.None? || !ValidChairs(chairs.value) then None
    else Some(Table(id, number.value, chairs.value, isReserved.GetOr(false), reservedAt))
  }

  /* ----------------------------------------------------------------------
     Chef
     ---------------------------------------------------------------------- */

  /**
   * A kitchen chef.  `ordersTaken` is `None` for a document stored before the field
   * existed; the schema default for new chefs is 0.
   */
  datatype Chef = Chef(id: nat, name: string, ordersTaken: Option<nat>, lastAssignedAt: Option<Time>)

  /* ----------------------------------------------------------------------
     User
     ---------------------------------------------------------------------- */

  /** A registered customer, found by contact number. */
  datatype User = User(id: nat, name: string, contact: string, address: string, numberOfPersons: int)

  /**
   * The user schema: name, contact and address are required (an empty string fails
   * `required`), and `contact` is stored trimmed.
   */
  predicate ValidUser(u: User) {
    u.name != [] && u.address != [] && u.contact != [] && Text.Trimmed(u.contact)
  }

  /* ----------------------------------------------------------------------
     Order
     ---------------------------------------------------------------------- */

  /** One order line as the client sends it; every field may be missing. */
  datatype Item = Item(name: Option<string>, quantity: Option<int>, price: Option<int>)

  /** Each line requires `name`, `quantity` and `price`. */
  predicate ValidItem(i: Item) {
    i.name.Some? && i.name.value != [] && i.quantity.Some? && i.price.Some?
  }

  /** A stored order, `createdAt` being the schema's creation timestamp. */
  datatype Order = Order(
    id: nat, kind: OrderType, userId: Option<nat>, table: Option<nat>, chef: Option<nat>,
    items: seq<Item>, amount: int, totalAmount: int, cookingTime: int,
    served: bool, servedAt: Option<Time>, partySize: Option<int>, createdAt: Time)

  /** The conditional `required` on `partySize`. */
  predicate PartySizeRequired(kind: OrderType) {
    kind == DineIn
  }

  /** The schema's `min: 1` and `max: 6` on `partySize`. */
  predicate PartySizeInRange(n: int) {
    1 <= n <= 6
  }

  /** Everything the order schema checks when a document is saved. */
  predicate ValidOrder(o: Order) {
    && (PartySizeRequired(o.kind) ==> o.partySize.Some?)
    && (o.partySize.Some? ==> PartySizeInRange(o.partySize.value))
    && (forall k :: 0 <= k < |o.items| ==> ValidItem(o.items[k]))
  }

  /** The fields handed to `Order.create`; those with a default may be left out. */
  datatype OrderDraft = OrderDraft(
    kind: OrderType, userId: Option<nat>, table: Option<nat>, chef: Option<nat>,
    items: seq<Item>, amount: int, totalAmount: Option<int>, cookingTime: int,
    served: Option<bool>, partySize: Option<int>)

  /** No line of `items` fails the item schema. */
  predicate AllItemsValid(items: seq<Item>) {
    forall k :: 0 <= k < |items| ==> ValidItem(items[k])
  }

  /**
   * `Order.create`: fill in the defaults (`served` false, `servedAt` null,
   * `totalAmount` 0, `createdAt` now) and validate.  `None` is the validation error.
   */
  function NewOrder(d: OrderDraft, id: nat, now: Time): (r: Option<Order>)
    ensures r.Some? <==> && (PartySizeRequired(d.kind) ==> d.partySize.Some?)
                         && (d.partySize.Some? ==> PartySizeInRange(d.partySize.value))
                         && AllItemsValid(d.items)
    ensures r.Some? ==> && ValidOrder(r.value)
                        && r.value.id == id && r.value.kind == d.kind
                        && r.value.userId == d.userId
                        && r.value.table == d.table && r.value.chef == d.chef
                        && r.value.items == d.items
                        && r.value.amount == d.amount && r.value.cookingTime == d.cookingTime
                        && r.value.totalAmount == d.totalAmount.GetOr(0)
                        && r.value.served == d.served.GetOr(false)
                        && r.value.servedAt == None
                        && r.value.partySize == d.partySize
                        && r.value.createdAt == now
  {
    var o := Order(id, d.kind, d.userId, d.table, d.chef, d.items, d.amount,
                   d.totalAmount.GetOr(0), d.cookingTime, d.served.GetOr(false), None,
                   d.partySize, now);
    if ValidOrder(o) then Some(o) else None
  }
}
