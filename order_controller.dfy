/**
 * The order controller: order creation (validation, contact lookup, best-fit table,
 * least-loaded chef, insert), the served/unserved switch, the 45-minute auto-serve
 * sweep, and the status labels of the order listing.
 */
module OrderController {
  import opened Wrappers
  import opened Models
  import Text
  import TableRegistry
  import Kitchen
  import UserDirectory

  /** An order not yet served this long after creation is served by the sweep. */
  const AutoServeMs: int := 45 * MinuteMs

  /* ----------------------------------------------------------------------
     The orders collection
     ---------------------------------------------------------------------- */

  ghost predicate UniqueIds(s: seq<Order>) {
    forall i, j :: 0 <= i < j < |s| ==> s[i].id != s[j].id
  }

  /** `Order.findById`: the position of the order with this id, if any. */
  function FindOrder(s: seq<Order>, id: nat): (r: Option<nat>)
    ensures r.Some? ==> r.value < |s| && s[r.value].id == id
    ensures r.None? ==> forall k :: 0 <= k < |s| ==> s[k].id != id
  {
    if s == [] then None
    else if s[0].id == id then Some(0)
    else match FindOrder(s[1..], id)
         case None => None
         case Some(k) => Some(k + 1)
  }

  /** The `orders` collection. */
  /** Adding a valid order under an unused id keeps the collection valid. */
  lemma AppendKeepsValid(s: seq<Order>, o: Order)
    requires UniqueIds(s) && forall k :: 0 <= k < |s| ==> ValidOrder(s[k])
    requires FindOrder(s, o.id).None? && ValidOrder(o)
    ensures UniqueIds(s + [o])
    ensures forall k :: 0 <= k < |s + [o]| ==> ValidOrder((s + [o])[k])
  {
    assert forall k :: 0 <= k < |s| ==> (s + [o])[k] == s[k];
  }

  class Orders {
    var rows: seq<Order>

    ghost predicate Valid()
      reads this
    {
      UniqueIds(rows) && forall k :: 0 <= k < |rows| ==> ValidOrder(rows[k])
    }

    constructor ()
      ensures Valid() && rows == []
    {
      rows := [];
    }
  }

  /* ----------------------------------------------------------------------
     createOrder
     ---------------------------------------------------------------------- */

  /**
   * The request body.  A field that is absent, or not of the type the controller
   * tests for (`typeof ... === "number"`, `Array.isArray`, `typeof ... === "string"`),
   * is `None`.
   */
  datatype OrderRequest = OrderRequest(
    kind: Option<string>, contact: Option<string>, items: Option<seq<Item>>,
    amount: Option<int>, totalAmount: Option<int>, cookingTime: Option<int>)

  datatype OrderError =
    | TypeRequired
    | InvalidType
    | ItemsRequired
    | InvalidAmount
    | InvalidCookingTime
    | ContactRequired
    | InvalidContact
    | NoTable(partySize: int)
    | NoChefs
    | OrderNotFound
    | ServerError

  /** What the order routes answer. */
  datatype OrderResult =
    | Placed(order: Order, table: Option<Table>, chef: Chef)
    | Updated(order: Order)
    | Failed(error: OrderError)

  /** A request that passed validation and, for dine-in, the contact lookup. */
  datatype Admission = Admission(
    kind: OrderType, userId: Option<nat>, partySize: int, items: seq<Item>,
    amount: int, totalAmount: int, cookingTime: int)

  /** `type.toLowerCase()` checked against the two accepted spellings. */
  function ParseKind(s: string): (r: Option<OrderType>)
    ensures r == Some(DineIn) <==> Text.Lower(s) == "dine-in"
    ensures r == Some(TakeAway) <==> Text.Lower(s) == "take-away"
    ensures r.None? <==> Text.Lower(s) != "dine-in" && Text.Lower(s) != "take-away"
  {
    var t := Text.Lower(s);
    if t == "dine-in" then Some(DineIn)
    else if t == "take-away" then Some(TakeAway)
    else None
  }

  /** `totalAmount` when it is a number no less than `amount`, and `amount` otherwise. */
  function Settle(amount: int, totalAmount: Option<int>): (t: int)
    ensures t >= amount
    ensures t == amount || totalAmount == Some(t)
  {
    if totalAmount.Some? && totalAmount.value >= amount then totalAmount.value else amount
  }

  /** `user.numberOfPersons || 1`: a zero head count counts as one. */
  function HeadCount(n: int): (p: int)
    ensures p != 0
    ensures n != 0 ==> p == n
  {
    if n == 0 then 1 else n
  }

  /**
   * Everything `createOrder` checks before it touches a collection, in its order:
   * the type, the items, the amount, the cooking time, and for dine-in the contact
   * and the user it names (looked up trimmed).
   */
  function Admit(req: OrderRequest, users: seq<User>): (r: Result<Admission, OrderError>)
    ensures !Truthy(req.kind) ==> r == Err(TypeRequired)
    ensures Truthy(req.kind) && ParseKind(req.kind.value).None? ==> r == Err(InvalidType)
    ensures r.Ok? ==> && Truthy(req.kind) && ParseKind(req.kind.value) == Some(r.value.kind)
                      && req.items == Some(r.value.items) && r.value.items != []
                      && req.amount == Some(r.value.amount) && r.value.amount >= 0
                      && r.value.totalAmount == Settle(r.value.amount, req.totalAmount)
                      && r.value.totalAmount >= r.value.amount
                      && req.cookingTime == Some(r.value.cookingTime) && r.value.cookingTime >= 0
    ensures r.Ok? && r.value.kind == TakeAway ==> r.value.userId == None && r.value.partySize == 1
    ensures r.Ok? && r.value.kind == DineIn ==>
              && Truthy(req.contact)
              && var k := UserDirectory.FindContact(users, Text.Trim(req.contact.value));
                 && k.Some?
                 && r.value.userId == Some(users[k.value].id)
                 && r.value.partySize == HeadCount(users[k.value].numberOfPersons)
    ensures r == Err(InvalidContact) ==>
              Truthy(req.contact) && UserDirectory.FindContact(users, Text.Trim(req.contact.value)).None?
    ensures r.Err? ==> r.error in {TypeRequired, InvalidType, ItemsRequired, InvalidAmount,
                                   InvalidCookingTime, ContactRequired, InvalidContact}
  {
    if !Truthy(req.kind) then Err(TypeRequired)
    else match ParseKind(req.kind.value)
    case None => Err(InvalidType)
    case Some(kind) =>
      if req.items.None? || req.items.value == [] then Err(ItemsRequired)
      else if req.amount.None? || req.amount.value < 0 then Err(InvalidAmount)
      else
        var total := Settle(req.amount.value, req.totalAmount);
        if req.cookingTime.None? || req.cookingTime.value < 0 then Err(InvalidCookingTime)
        else if kind == TakeAway then
          Ok(Admission(TakeAway, None, 1, req.items.value, req.amount.value, total, req.cookingTime.value))
        else if !Truthy(req.contact) then Err(ContactRequired)
        else match UserDirectory.FindContact(users, Text.Trim(req.contact.value))
          case None => Err(InvalidContact)
          case Some(k) =>
            Ok(Admission(DineIn, Some(users[k].id), HeadCount(users[k].numberOfPersons),
                         req.items.value, req.amount.value, total, req.cookingTime.value))
  }

  /** A well-formed take-away request is admitted with its own items, amount and cooking time. */
  lemma AdmitTakeAway(req: OrderRequest, users: seq<User>)
    requires req.kind.Some? && ParseKind(req.kind.value) == Some(TakeAway)
    requires req.items.Some? && req.items.value != []
    requires req.amount.Some? && req.amount.value >= 0
    requires req.cookingTime.Some? && req.cookingTime.value >= 0
    ensures Admit(req, users) ==
            Ok(Admission(TakeAway, None, 1, req.items.value, req.amount.value,
                         Settle(req.amount.value, req.totalAmount), req.cookingTime.value))
  {
    assert req.kind.value != [] by { assert Text.Lower(req.kind.value) == "take-away"; }
  }

  /**
   * A well-formed dine-in request is admitted exactly when its contact is non-empty
   * and, trimmed, names a user; then with that user's id and head count.
   */
  lemma AdmitDineIn(req: OrderRequest, users: seq<User>)
    requires req.kind.Some? && ParseKind(req.kind.value) == Some(DineIn)
    requires req.items.Some? && req.items.value != []
    requires req.amount.Some? && req.amount.value >= 0
    requires req.cookingTime.Some? && req.cookingTime.value >= 0
    ensures Admit(req, users).Ok? <==>
              Truthy(req.contact) && UserDirectory.FindContact(users, Text.Trim(req.contact.value)).Some?
    ensures Admit(req, users).Ok? ==>
              var u := users[UserDirectory.FindContact(users, Text.Trim(req.contact.value)).value];
              Admit(req, users).value ==
                Admission(DineIn, Some(u.id), HeadCount(u.numberOfPersons), req.items.value, req.amount.value,
                          Settle(req.amount.value, req.totalAmount), req.cookingTime.value)
  {
    assert req.kind.value != [] by { assert Text.Lower(req.kind.value) == "dine-in"; }
  }

  /** The document handed to `Order.create`; `partySize` only for dine-in. */
  function Draft(a: Admission, table: Option<Table>, chef: Chef): OrderDraft {
    OrderDraft(a.kind, a.userId, if table.Some? then Some(table.value.id) else None, Some(chef.id),
               a.items, a.amount, Some(a.totalAmount), a.cookingTime, Some(false),
               if a.kind == DineIn then Some(a.partySize) else None)
  }

  /**
   * An admitted request is stored exactly when every item has its fields and, for
   * dine-in, the head count is between 1 and 6; the stored order keeps the settled
   * total, is unserved, and points at the table and chef it was given.
   */
  lemma DraftAccepted(a: Admission, table: Option<Table>, chef: Chef, id: nat, now: Time)
    ensures NewOrder(Draft(a, table, chef), id, now).Some? <==>
              AllItemsValid(a.items) && (a.kind == DineIn ==> PartySizeInRange(a.partySize))
    ensures NewOrder(Draft(a, table, chef), id, now).Some? ==>
              var o := NewOrder(Draft(a, table, chef), id, now).value;
              && o.totalAmount == a.totalAmount && !o.served && o.servedAt == None
              && o.chef == Some(chef.id) && (o.table.Some? <==> table.Some?)
              && (o.partySize.Some? <==> a.kind == DineIn)
  {
  }

  /**
   * A head count below 1 lets every free table match (`chairs >= partySize`), but
   * the schema then refuses the order: the table and the chef have been taken for an
   * order that is never stored.
   */
  lemma NegativeHeadCount(a: Admission, t: Table, chef: Chef, id: nat, now: Time)
    requires a.kind == DineIn && a.partySize < 1 && !t.isReserved && ValidChairs(t.chairs)
    ensures TableRegistry.FreeFor(t, a.partySize)
    ensures NewOrder(Draft(a, Some(t), chef), id, now).None?
  {
  }

  /**
   * `createOrder`.  A request that fails validation or the contact lookup changes
   * nothing.  A dine-in request then takes the best-fitting free table (`reserved`),
   * and fails with nothing changed when there is none.  Then the least-loaded chef is
   * charged (`charged`); when there is no chef the answer is an error, but the
   * reserved table stays reserved.  Finally the order is stored; when the schema
   * refuses it the answer is a server error and neither the table nor the chef
   * charge is undone.
   */
  method CreateOrder(tables: TableRegistry.Tables, chefs: Kitchen.Chefs, orders: Orders,
                     users: UserDirectory.Users, req: OrderRequest, id: nat, now: Time)
    returns (r: OrderResult, ghost reserved: Option<Table>, ghost charged: Option<Chef>)
    requires tables.Valid() && chefs.Valid() && orders.Valid()
    requires FindOrder(orders.rows, id).None?
    modifies tables, chefs, orders
    ensures tables.Valid() && chefs.Valid() && orders.Valid()
    ensures Admit(req, users.rows).Err? ==>
              && r == Failed(Admit(req, users.rows).error)
              && tables.rows == old(tables.rows) && chefs.rows == old(chefs.rows)
              && orders.rows == old(orders.rows)
    ensures Admit(req, users.rows).Ok? ==>
              var a := Admit(req, users.rows).value;
              && (a.kind == DineIn ==> TableRegistry.Allocation(old(tables.rows), tables.rows, a.partySize, now, reserved))
              && (a.kind == TakeAway ==> tables.rows == old(tables.rows) && reserved == None)
              && (a.kind == DineIn && reserved == None ==>
                    r == Failed(NoTable(a.partySize)) && chefs.rows == old(chefs.rows) && orders.rows == old(orders.rows))
              && (a.kind == TakeAway || reserved.Some? ==>
                    && Kitchen.Pick(old(chefs.rows), chefs.rows, now, charged)
                    && (charged == None ==> r == Failed(NoChefs) && orders.rows == old(orders.rows))
                    && (charged.Some? ==>
                          var o := NewOrder(Draft(a, reserved, charged.value), id, now);
                          if o.Some? then
                            r == Placed(o.value, reserved, charged.value) && orders.rows == old(orders.rows) + [o.value]
                          else
                            r == Failed(ServerError) && orders.rows == old(orders.rows)))
  {
    reserved, charged := None, None;
    var admitted := Admit(req, users.rows);
    if admitted.Err? {
      return Failed(admitted.error), reserved, charged;
    }
    var a := admitted.value;
    var table: Option<Table> := None;
    if a.kind == DineIn {
      table := tables.ReserveBestFit(a.partySize, now);
      reserved := table;
      if table.None? {
        return Failed(NoTable(a.partySize)), reserved, charged;
      }
    }
    var chef := chefs.Assign(now);
    charged := chef;
    if chef.None? {
      return Failed(NoChefs), reserved, charged;
    }
    var o := NewOrder(Draft(a, table, chef.value), id, now);
    if o.None? {
      return Failed(ServerError), reserved, charged;
    }
    AppendKeepsValid(orders.rows, o.value);
    orders.rows := orders.rows + [o.value];
    r := Placed(o.value, table, chef.value);
  }

  /* ----------------------------------------------------------------------
     updateOrderStatus
     ---------------------------------------------------------------------- */

  /** The order as `updateOrderStatus` saves it. */
  function WithStatus(o: Order, served: bool, now: Time): (r: Order)
    ensures r == o.(served := r.served, servedAt := r.servedAt)
    ensures r.served == served && (r.servedAt.Some? <==> served)
    ensures served ==> r.servedAt == Some(now)
  {
    o.(served := served, servedAt := if served then Some(now) else None)
  }

  /**
   * `updateOrderStatus`: an unknown id is 404 with nothing changed.  Otherwise the
   * order takes the flag, `servedAt` being now exactly when served; serving a dine-in
   * order that has a table releases that table, and nothing else touches the tables.
   */
  method UpdateOrderStatus(orders: Orders, tables: TableRegistry.Tables, id: nat, served: bool, now: Time)
    returns (r: OrderResult)
    requires orders.Valid() && tables.Valid()
    modifies orders, tables
    ensures orders.Valid() && tables.Valid()
    ensures FindOrder(old(orders.rows), id).None? ==>
              r == Failed(OrderNotFound) && orders.rows == old(orders.rows) && tables.rows == old(tables.rows)
    ensures FindOrder(old(orders.rows), id).Some? ==>
              var k := FindOrder(old(orders.rows), id).value;
              var o := old(orders.rows)[k];
              && r == Updated(WithStatus(o, served, now))
              && orders.rows == old(orders.rows)[k := WithStatus(o, served, now)]
              && tables.rows == if served && o.kind == DineIn && o.table.Some?
                                then TableRegistry.ReleaseIds(old(tables.rows), {o.table.value})
                                else old(tables.rows)
  {
    var found := FindOrder(orders.rows, id);
    if found.None? {
      return Failed(OrderNotFound);
    }
    var k := found.value;
    var o := WithStatus(orders.rows[k], served, now);
    orders.rows := orders.rows[k := o];
    if served && o.kind == DineIn && o.table.Some? {
      tables.ReleaseMany({o.table.value});
    }
    r := Updated(o);
  }

  /** A status change never reserves a table: whatever it frees, it only frees. */
  lemma StatusNeverReserves(before: seq<Table>, ids: set<nat>)
    ensures |TableRegistry.ReleaseIds(before, ids)| == |before|
    ensures forall k :: 0 <= k < |before| ==>
              (TableRegistry.ReleaseIds(before, ids)[k].isReserved ==> before[k].isReserved)
  {
  }

  /* ----------------------------------------------------------------------
     markOrdersAsServed
     ---------------------------------------------------------------------- */

  /** The sweep's query: unserved, created at least 45 minutes before `now`, with a table. */
  predicate Due(o: Order, now: Time) {
    !o.served && o.createdAt <= now - AutoServeMs && o.table.Some?
  }

  predicate AnyDue(s: seq<Order>, now: Time) {
    exists k :: 0 <= k < |s| && Due(s[k], now)
  }

  /** The orders after `updateMany({ _id: { $in: due } }, { served: true, servedAt: now })`. */
  function AutoServed(s: seq<Order>, now: Time): (r: seq<Order>)
    ensures |r| == |s|
    ensures forall k :: 0 <= k < |s| ==> r[k] == if Due(s[k], now) then WithStatus(s[k], true, now) else s[k]
  {
    if s == [] then []
    else [if Due(s[0], now) then WithStatus(s[0], true, now) else s[0]] + AutoServed(s[1..], now)
  }

  /** The tables of the due orders. */
  function DueTables(s: seq<Order>, now: Time): (r: set<nat>)
    ensures forall t :: t in r <==> exists k :: 0 <= k < |s| && Due(s[k], now) && s[k].table == Some(t)
  {
    set k | 0 <= k < |s| && Due(s[k], now) :: s[k].table.value
  }

  /** With nothing due, serving the due orders changes nothing. */
  lemma {:induction false} NothingDue(s: seq<Order>, now: Time)
    requires !AnyDue(s, now)
    ensures AutoServed(s, now) == s && DueTables(s, now) == {}
  {
    if s != [] {
      assert !AnyDue(s[1..], now);
      NothingDue(s[1..], now);
    }
  }

  /**
   * `markOrdersAsServed` at `now`: exactly the due orders become served at `now`, and
   * exactly their tables are released; when none is due, nothing changes.
   */
  method MarkOrdersAsServed(orders: Orders, tables: TableRegistry.Tables, now: Time)
    requires orders.Valid() && tables.Valid()
    modifies orders, tables
    ensures orders.Valid() && tables.Valid()
    ensures orders.rows == AutoServed(old(orders.rows), now)
    ensures tables.rows == TableRegistry.ReleaseIds(old(tables.rows), DueTables(old(orders.rows), now))
  {
    if !AnyDue(orders.rows, now) {
      NothingDue(orders.rows, now);
      TableRegistry.ReleaseNothing(tables.rows);
      return;
    }
    var tableIds := DueTables(orders.rows, now);
    orders.rows := AutoServed(orders.rows, now);
    tables.ReleaseMany(tableIds);
  }

  /** After a sweep at `now` nothing is due, so a second sweep at the same `now` changes nothing. */
  lemma SweepIdempotent(s: seq<Order>, tables: seq<Table>, now: Time)
    ensures !AnyDue(AutoServed(s, now), now)
    ensures AutoServed(AutoServed(s, now), now) == AutoServed(s, now)
    ensures DueTables(AutoServed(s, now), now) == {}
    ensures var released := TableRegistry.ReleaseIds(tables, DueTables(s, now));
            TableRegistry.ReleaseIds(released, DueTables(AutoServed(s, now), now)) == released
  {
    NothingDue(AutoServed(s, now), now);
    TableRegistry.ReleaseNothing(TableRegistry.ReleaseIds(tables, DueTables(s, now)));
  }

  /* ----------------------------------------------------------------------
     getOrders: the listing's labels
     ---------------------------------------------------------------------- */

  /** One entry of the order listing. */
  datatype OrderView = OrderView(
    id: nat, tableId: Option<nat>, tableNumber: Option<int>, chairs: Option<int>,
    items: nat, totalQty: int, typeLabel: string, status: string, statusColor: string,
    itemsDetails: seq<Item>)

  /** `it.quantity || 0` summed over the items. */
  function TotalQty(items: seq<Item>): (r: int)
    ensures (forall k :: 0 <= k < |items| ==> items[k].quantity.GetOr(0) >= 0) ==> r >= 0
    ensures (forall k :: 0 <= k < |items| ==> items[k].quantity.GetOr(0) >= 1) ==> r >= |items|
    ensures (forall k :: 0 <= k < |items| ==> items[k].quantity.None?) ==> r == 0
  {
    if items == [] then 0 else items[0].quantity.GetOr(0) + TotalQty(items[1..])
  }

  /** The quantity total of two item lists together is the sum of their totals. */
  lemma {:induction false} TotalQtyAppend(a: seq<Item>, b: seq<Item>)
    ensures TotalQty(a + b) == TotalQty(a) + TotalQty(b)
  {
    if a == [] {
      assert a + b == b;
    } else {
      TotalQtyAppend(a[1..], b);
      assert (a + b)[1..] == a[1..] + b;
    }
  }

  /** `TableRegistry.Find` by an optional reference: the populated table, if it still exists. */
  function Populate(tables: seq<Table>, ref: Option<nat>): (r: Option<Table>)
    ensures r.Some? ==> ref.Some? && r.value in tables && r.value.id == ref.value
    ensures ref.Some? && (exists k :: 0 <= k < |tables| && tables[k].id == ref.value) ==> r.Some?
  {
    if ref.None? then None
    else match TableRegistry.Find(tables, ref.value)
         case None => None
         case Some(k) => Some(tables[k])
  }

  /** `v || null` on a number: zero is falsy. */
  function OrNull(v: int): (r: Option<int>)
    ensures r.Some? <==> v != 0
    ensures r.Some? ==> r.value == v
  {
    if v == 0 then None else Some(v)
  }

  /** The `status` of a listed order. */
  function StatusOf(o: Order): (s: string)
    ensures s == "Served" <==> o.served
    ensures s == "Processing" <==> !o.served && o.kind == DineIn
    ensures s == "Not Picked" <==> !o.served && o.kind == TakeAway
  {
    assert "Not Picked"[0] != "Processing"[0] && "Not Picked"[0] != "Served"[0];
    if o.served then "Served"
    else match o.kind
         case DineIn => "Processing"
         case TakeAway => "Not Picked"
  }

  /** The `statusColor` of a listed order. */
  function ColorOf(o: Order): (c: string)
    ensures c == "green" <==> o.served
    ensures c == "orange" <==> !o.served && o.kind == DineIn
    ensures c == "gray" <==> !o.served && o.kind == TakeAway
  {
    assert "gray"[2] != "green"[2] && "gray"[0] != "orange"[0];
    if o.served then "green"
    else match o.kind
         case DineIn => "orange"
         case TakeAway => "gray"
  }

  /** One listing entry; `tables` is the collection the `table` reference is populated from. */
  function ViewOf(o: Order, tables: seq<Table>): (v: OrderView)
    ensures v.id == o.id && v.items == |o.items| && v.itemsDetails == o.items
    ensures v.totalQty == TotalQty(o.items)
    ensures Populate(tables, o.table).Some? ==>
              var t := Populate(tables, o.table).value;
              v.tableId == o.table && v.tableNumber == OrNull(t.number) && v.chairs == OrNull(t.chairs)
    ensures Populate(tables, o.table).None? ==> v.tableId == None && v.tableNumber == None && v.chairs == None
    ensures v.status == StatusOf(o) && v.statusColor == ColorOf(o)
    ensures v.typeLabel == (if o.kind == DineIn then "Dine In" else "Take Away")
  {
    var t := Populate(tables, o.table);
    OrderView(o.id,
              if t.Some? then Some(t.value.id) else None,
              if t.Some? then OrNull(t.value.number) else None,
              if t.Some? then OrNull(t.value.chairs) else None,
              |o.items|, TotalQty(o.items),
              if o.kind == DineIn then "Dine In" else "Take Away",
              StatusOf(o), ColorOf(o), o.items)
  }

  /** The status and its colour name the same stage of an order, whichever order it is. */
  lemma StatusMatchesColor(o: Order, tables: seq<Table>)
    ensures var v := ViewOf(o, tables);
            && (v.status == "Served" <==> v.statusColor == "green")
            && (v.status == "Processing" <==> v.statusColor == "orange")
            && (v.status == "Not Picked" <==> v.statusColor == "gray")
  {
  }

  /** The listing: one entry per order, in collection order. */
  function Listing(orders: seq<Order>, tables: seq<Table>): (r: seq<OrderView>)
    ensures |r| == |orders|
    ensures forall k :: 0 <= k < |orders| ==> r[k] == ViewOf(orders[k], tables)
  {
    if orders == [] then [] else [ViewOf(orders[0], tables)] + Listing(orders[1..], tables)
  }
}
