# Restaurant ordering: a Dafny model

This project models the core of a restaurant ordering system. The system has two parts:

- an Express/MongoDB back end that keeps four collections: tables, chefs, orders and users;
- a React front end where a customer picks products, fills a cart and places an order.

The model covers these parts of the system:

- **Order pipeline.** `createOrder` validates the request and, for dine-in, looks up the customer by trimmed contact. It then reserves the best-fitting free table in one atomic step, charges the least-loaded chef in one atomic step, and stores the order. Also covered: the manual `updateOrderStatus`, the 45-minute auto-serve sweep `markOrdersAsServed`, the status labels of the order listing, and the repair of chefs stored without an `ordersTaken` counter.
- **Table registry.** Availability counts, the listing sorted by number, and creation with a 30-table cap and unique numbers. Also deletion, which refuses reserved tables and renumbers the remaining tables 1..n. Also reservation, release, and the 40-minute auto-release sweep.
- **Users.** Create-or-update keyed by the trimmed contact, lookup by contact, and the count of distinct contacts.
- **Schemas.** The Order, Table, Chef and User schemas: required fields, enumerations, the conditional `partySize` in 1..6, and defaults.
- **Client cart** (`OrderPage.jsx`). The cart total and the increment, decrement and remove buttons; round-robin chef tags; the fee per tab; and the checks and request body of `placeOrder`, including the proof that such a body passes the server's validation.
- **Product picker** (`CategoryProduct.jsx`). Upserting the selection, the quantity buttons, moving the first search match to the front, and the guard before the order page.

## Modelling choices

- **Collections.** Each collection is a Dafny `class` holding `rows: seq<Record>`.
- **Atomic steps.** Each MongoDB `findOneAndUpdate`, `updateMany` or find-then-save is one method step.
- **The whole request.** `createOrder` is a module-level method over the four collections.
- **Inputs the code does not compute.** The clock (`now`, in milliseconds) and the id a new document receives are parameters of the methods.
- **Missing fields.** A request field that may be absent is an `Option`, and so is a chef's `ordersTaken`. Mongo sorts a missing field before every number, and `$inc` on a missing field yields 1.
- **Error paths.** Each error is a constructor of the operation's result datatype, never a precondition.

### Gaps in the code, modelled as written

- **No tie-break between tables.** The table query sorts only by `chairs` (`orderController.js:47`), unlike the chef query, which breaks ties by `_id` (`orderController.js:60`). So `TableRegistry.Allocation` is existential: any free table with the fewest sufficient chairs may be taken.
- **No rollback.** Nothing releases the table or undoes the chef's charge once they are made:
  - when no chef is found (`orderController.js:65-67`), the table that was just reserved stays reserved;
  - when `Order.create` fails the schema (`orderController.js:83`, caught at `:93-100`), the reserved table and the chef's charge both stay.

  `OrderController.CreateOrder` states both outcomes, and `OrderController.NegativeHeadCount` exhibits an input that reaches the second.
- **Renumbering can fail.** `deleteTable` renumbers with one `save` per table (`tableController.js:111-118`), and the unique index on `number` can refuse a save midway. This happens when a remaining number is 0 or negative, which `createTable` does not forbid. The model stops with a server error, and `TableRegistry.Tables.Delete` proves that this cannot happen when every number is at least 1.
- **The lookup by contact is trimmed.** `GET /user?contact=` passes the raw query to `findOne` (`user.js:72`), but the schema declares `contact` with `trim: true` (`userModel.js:8-13`), and Mongoose applies that setter to query filters too. So the lookup matches the trimmed contact, as `POST` stores it.

## Model

| member | source | states |
|---|---|---|
| Models.NewTable | Restaurant-backend/models/Table.js:3-8 | a table is stored exactly when number and chairs are given and chairs is 2, 4 or 6; `isReserved` defaults to false and `reservedAt` has no default |
| Models.NewOrder | Restaurant-backend/models/Order.js:3-62 | an order is stored exactly when dine-in carries a party size, a party size present is in 1..6, and every item has name, quantity and price; the stored order keeps the given fields, with served false, servedAt null and totalAmount 0 by default |
| Text.Trim | Restaurant-backend/routes/user.js:16 | the result neither starts nor ends with white space, and it is an infix of the input with only white space cut off on either side |
| Text.TrimIdempotent | Restaurant-backend/routes/user.js:16-19 | trimming a trimmed contact changes nothing |
| Text.LowerChar | Restaurant-backend/controllers/orderController.js:18 | capital ASCII letters map to their small letters, every other character to itself |
| Text.Lower | Restaurant-backend/controllers/orderController.js:18 | same length, each character lowered |
| Text.LowerFixed | Restaurant-backend/controllers/orderController.js:19 | a string without capitals is its own lower-case form |
| Text.IncludesEmpty | restuarant-app/src/pages/Mobile/CategoryProduct.jsx:72 | every name includes the empty query |
| TableRegistry.Find | Restaurant-backend/controllers/tableController.js:100 | the first position holding the id, or none exactly when no table has it |
| TableRegistry.CountReserved | Restaurant-backend/controllers/tableController.js:11 | the number of reserved tables is at most the number of tables |
| TableRegistry.CountFree | Restaurant-backend/controllers/tableController.js:12 | the number of free tables is at most the number of tables |
| TableRegistry.FreePlusReserved | Restaurant-backend/controllers/tableController.js:10-12 | free and reserved tables add up to all tables |
| TableRegistry.Tables.Availability | Restaurant-backend/controllers/tableController.js:10-12 | total is the table count, reserved the reserved count, free is never negative and is the free count, so free + reserved = total |
| TableRegistry.InsertByNumber | Restaurant-backend/controllers/tableController.js:34 | insertion adds exactly the one table |
| TableRegistry.InsertAbove | Restaurant-backend/controllers/tableController.js:34 | a lower bound on every number survives insertion of a table above it |
| TableRegistry.InsertAscending | Restaurant-backend/controllers/tableController.js:34 | insertion keeps the list ascending, strictly when the new number is absent |
| TableRegistry.SortByNumber | Restaurant-backend/controllers/tableController.js:34 | the listing is a permutation of the tables |
| TableRegistry.SortAscending | Restaurant-backend/controllers/tableController.js:34 | the listing is ascending by number, strictly when numbers are unique |
| TableRegistry.ListingAscending | Restaurant-backend/controllers/tableController.js:34 | the unique index on number makes the listing strictly ascending |
| TableRegistry.Tables.Listing | Restaurant-backend/controllers/tableController.js:32-35 | every table exactly once, strictly ascending by number |
| TableRegistry.Tables.Create | Restaurant-backend/controllers/tableController.js:51-80 | 30 tables refuse any input; then a missing field, then a taken number are refused; chairs outside 2, 4, 6 is a server error; otherwise exactly one free table without reservation time is added; all refusals change nothing and the count never passes 30 this way |
| TableRegistry.Without | Restaurant-backend/controllers/tableController.js:108 | the table at the position is gone and the others keep their order |
| TableRegistry.Tables.Delete | Restaurant-backend/controllers/tableController.js:100-120 | unknown id is 404, a reserved table is refused, both with no change; otherwise the table is removed and the rest renumbered 1..n in order of old number, or a server error leaving the same tables with unique numbers; with all numbers positive it always succeeds |
| TableRegistry.Tables.Renumber | Restaurant-backend/controllers/tableController.js:111-118 | the table at sorted position q ends with number q + 1 and nothing else about any table changes; a save that would duplicate a number stops the loop; with positive numbers it never stops |
| TableRegistry.RenumberExample | Restaurant-backend/controllers/tableController.js:108-118 | deleting table 2 of tables 1, 2, 3 leaves tables numbered 1 and 2 |
| TableRegistry.FindSameIds | Restaurant-backend/controllers/tableController.js:116 | renumbering does not move the position an id is found at |
| TableRegistry.FindUnique | Restaurant-backend/controllers/tableController.js:100 | with unique ids, each table is found at its own position |
| TableRegistry.AscendingFromOne | Restaurant-backend/controllers/tableController.js:113-114 | in a strictly ascending listing starting at 1 or above, position q holds at least q + 1 |
| TableRegistry.Tables.UpdateReservation | Restaurant-backend/controllers/tableController.js:135-153 | a non-boolean flag is 400 and an unknown id 404, both with no change; otherwise only that table changes, reserved at now or released, keeping reserved exactly when a reservation time is set |
| TableRegistry.ReleaseIds | Restaurant-backend/controllers/orderController.js:387-390 | exactly the tables whose id is listed are released, the rest kept |
| TableRegistry.ReleaseOne | Restaurant-backend/controllers/tableController.js:183-185 | releasing one id changes only the table at its position |
| TableRegistry.ReleaseIdsIdempotent | Restaurant-backend/controllers/tableController.js:183-185 | releasing twice is releasing once |
| TableRegistry.ReleaseNothing | Restaurant-backend/controllers/orderController.js:387-390 | releasing no table changes nothing |
| TableRegistry.Tables.Release | Restaurant-backend/controllers/tableController.js:175-185 | unknown id is 404 with no change; otherwise exactly that table is free with no reservation time |
| TableRegistry.Tables.ReleaseMany | Restaurant-backend/controllers/orderController.js:119-122 | `updateMany` releasing a set of ids: the collection becomes the release of those ids |
| TableRegistry.Stale | Restaurant-backend/controllers/tableController.js:210-213 | the sweep's query: reserved, with a reservation time at or before now − 40 min |
| TableRegistry.AutoReleased | Restaurant-backend/controllers/tableController.js:206-221 | exactly the tables reserved at or before now − 40 min are released, every other table is kept |
| TableRegistry.AutoReleaseIdempotent | Restaurant-backend/controllers/tableController.js:206-221 | a second sweep at the same time changes nothing |
| TableRegistry.AutoReleaseExact | Restaurant-backend/controllers/tableController.js:210-213 | after the sweep no reservation is stale, and a table stays reserved exactly when it was reserved and not stale |
| TableRegistry.AutoReleaseExample | Restaurant-backend/controllers/tableController.js:206-221 | of reservations 41 and 5 minutes old, only the first is freed |
| TableRegistry.Tables.AutoRelease | Restaurant-backend/controllers/tableController.js:216-221 | the table loop leaves the collection exactly as the sweep defines it |
| TableRegistry.BestFit | Restaurant-backend/controllers/orderController.js:44-48 | the specification of the query's answer: a free table with at least the party's chairs and no more chairs than any other such table |
| TableRegistry.Allocation | Restaurant-backend/controllers/orderController.js:44-48 | the specification of one `findOneAndUpdate`: when some table fits, a best fit becomes reserved at now, nothing else changes, and it is returned as updated; otherwise nothing changes and nothing is returned |
| TableRegistry.BestFitExists | Restaurant-backend/controllers/orderController.js:44-48 | whenever some free table has enough chairs, one with the fewest such chairs exists |
| TableRegistry.BestFitSmallest | Restaurant-backend/controllers/orderController.js:44-48 | with free tables of 2, 4 and 6 chairs, a party of 3 gets exactly the 4-chair table |
| TableRegistry.BestFitLargerWhenOnlyOne | Restaurant-backend/controllers/orderController.js:44-48 | with only the 6-chair table free, a party of 2 gets it |
| TableRegistry.CountFreeFor | Restaurant-backend/controllers/orderController.js:45 | the number of tables a party fits is zero exactly when none fits |
| TableRegistry.ReserveCount | Restaurant-backend/controllers/orderController.js:44-48 | reserving a fitting table removes exactly that table from the fitting tables of any party size |
| TableRegistry.Tables.ReserveBestFit | Restaurant-backend/controllers/orderController.js:44-52 | a free table with enough and fewest chairs becomes reserved at now and is returned, all others unchanged; with none, nothing changes and nothing is returned |
| TableRegistry.AllocationStep | Restaurant-backend/controllers/orderController.js:44-52 | one allocation succeeds exactly when a table fits, hands out a table that fitted and no longer does, and lowers the fitting count by one |
| TableRegistry.RunLater | Restaurant-backend/controllers/orderController.js:44-48 | the later allocations of a run form a run |
| TableRegistry.RunCombine | Restaurant-backend/controllers/orderController.js:44-48 | a first allocation followed by a good run never hands out the same table twice |
| TableRegistry.AllocationRun | Restaurant-backend/controllers/orderController.js:44-52 | over successive allocations for one party size no table is handed out twice, each handed-out table was free and fitting at the start, and exactly min(N, fitting tables) of N requests succeed |
| TableRegistry.MinStep | Restaurant-backend/controllers/orderController.js:50-52 | one more request succeeds exactly when a table was left, so the success count stays min(N, fitting) |
| TableRegistry.Successes | Restaurant-backend/controllers/orderController.js:50 | no more successes than requests |
| Kitchen.Pick | Restaurant-backend/controllers/orderController.js:56-63 | the specification of one chef pick: with no chef nothing changes and nothing is returned; otherwise a chef sorting first is charged one order at now and returned as updated |
| Kitchen.LeastLoaded | Restaurant-backend/controllers/orderController.js:56-63 | none exactly when there is no chef; otherwise a chef sorting first under `{ ordersTaken: 1, _id: 1 }`, a missing counter first |
| Kitchen.LightestUnique | Restaurant-backend/controllers/orderController.js:60 | with unique ids the chef sorting first is unique |
| Kitchen.Charge | Restaurant-backend/controllers/orderController.js:58 | the counter goes up by exactly one (a missing one becomes 1) and `lastAssignedAt` is now; id and name kept |
| Kitchen.ChargeAddsOne | Restaurant-backend/controllers/orderController.js:56-63 | one assignment adds exactly one to the orders counted over all chefs |
| Kitchen.PickKeepsBalance | Restaurant-backend/controllers/orderController.js:56-63 | with every chef counted and counters within one of each other, picking the least-loaded chef keeps them within one |
| Kitchen.MissingCounterUnbalances | Restaurant-backend/controllers/orderController.js:56-63 | a chef stored without a counter sorts first and jumps to 1, breaking that balance |
| Kitchen.Chefs.Assign | Restaurant-backend/controllers/orderController.js:56-67 | with no chef nothing changes and none is returned; otherwise the first chef under the sort is charged, returned as updated, and no other chef changes |
| Kitchen.FixedAll | Restaurant-backend/controllers/orderController.js:342-345 | every chef without a counter gets 0, every other chef is kept |
| Kitchen.CountMissing | Restaurant-backend/controllers/orderController.js:347 | the touched chefs are at most all chefs |
| Kitchen.FixIdempotent | Restaurant-backend/controllers/orderController.js:340-358 | after the repair every chef is counted, a second repair touches none and changes nothing |
| Kitchen.FixKeepsTotal | Restaurant-backend/controllers/orderController.js:342-345 | the repair keeps the orders counted over all chefs |
| Kitchen.FixCounted | Restaurant-backend/controllers/orderController.js:342-345 | when every chef is counted the repair touches and changes nothing |
| Kitchen.Chefs.FixMissingOrdersTaken | Restaurant-backend/controllers/orderController.js:340-358 | the collection becomes the repaired one, the reported count is the chefs lacking a counter, and the listing is the new collection |
| OrderController.FindOrder | Restaurant-backend/controllers/orderController.js:109 | the position of the order with the id, or none exactly when there is none |
| OrderController.AppendKeepsValid | Restaurant-backend/controllers/orderController.js:83 | storing a valid order under an unused id keeps the collection valid |
| OrderController.ParseKind | Restaurant-backend/controllers/orderController.js:18-20 | dine-in or take-away exactly when the lower-cased type is that spelling, none exactly when it is neither |
| OrderController.Settle | Restaurant-backend/controllers/orderController.js:26 | the total is never below the amount, and is the amount or the given total |
| OrderController.HeadCount | Restaurant-backend/controllers/orderController.js:42 | never zero, and the user's head count when that is not zero |
| OrderController.Admit | Restaurant-backend/controllers/orderController.js:16-42 | the errors in order (type missing, type invalid, items, amount, cooking time, contact, unknown contact); an admitted request keeps its items, amount and cooking time, totals at least the amount, and for dine-in carries the user found by trimmed contact and its head count |
| OrderController.AdmitTakeAway | Restaurant-backend/controllers/orderController.js:16-32 | a take-away request with items and non-negative amount and cooking time is admitted with exactly those |
| OrderController.AdmitDineIn | Restaurant-backend/controllers/orderController.js:16-42 | such a dine-in request is admitted exactly when its contact is non-empty and names a user once trimmed, and then with that user |
| OrderController.DraftAccepted | Restaurant-backend/controllers/orderController.js:70-83 | the drafted order is stored exactly when its items are complete and a dine-in party size is in 1..6; it keeps the settled total, is unserved, and names its table and chef |
| OrderController.NegativeHeadCount | Restaurant-backend/controllers/orderController.js:42-48 | a head count below 1 matches every free table, yet the order is then refused by the schema |
| OrderController.CreateOrder | Restaurant-backend/controllers/orderController.js:12-101 | a rejected request changes nothing; dine-in reserves a best-fit table or fails with nothing else changed; then the least-loaded chef is charged or the answer is "no chefs" with the table left reserved; then the order is stored, or on a schema failure nothing is undone |
| OrderController.WithStatus | Restaurant-backend/controllers/orderController.js:113-114 | only served and servedAt change; servedAt is now exactly when served |
| OrderController.UpdateOrderStatus | Restaurant-backend/controllers/orderController.js:106-127 | unknown id is 404 with no change; otherwise only that order takes the flag, and the tables change only when a dine-in order with a table is served, by releasing that table |
| OrderController.StatusNeverReserves | Restaurant-backend/controllers/orderController.js:118-123 | a status change never reserves a table |
| OrderController.Due | Restaurant-backend/controllers/orderController.js:371-375 | the sweep's query: unserved, created at or before now − 45 min, with a table |
| OrderController.AutoServed | Restaurant-backend/controllers/orderController.js:371-385 | exactly the unserved orders with a table created at or before now − 45 min become served at now, the rest kept |
| OrderController.DueTables | Restaurant-backend/controllers/orderController.js:380 | a table id is released exactly when a due order names it |
| OrderController.NothingDue | Restaurant-backend/controllers/orderController.js:377 | with nothing due the sweep changes no order and frees no table |
| OrderController.MarkOrdersAsServed | Restaurant-backend/controllers/orderController.js:368-390 | the orders become the served ones and exactly the due orders' tables are released |
| OrderController.SweepIdempotent | Restaurant-backend/controllers/orderController.js:368-390 | after a sweep nothing is due, and a second sweep at the same time changes neither orders nor tables |
| OrderController.TotalQtyAppend | Restaurant-backend/controllers/orderController.js:153 | the quantity total of two item lists is the sum of their totals |
| OrderController.Populate | Restaurant-backend/controllers/orderController.js:141 | a populated table is the stored table with the referenced id, present whenever one exists |
| OrderController.OrNull | Restaurant-backend/controllers/orderController.js:149-150 | a number or null: null exactly when the number is zero |
| OrderController.StatusOf | Restaurant-backend/controllers/orderController.js:155 | Served exactly when served, Processing for unserved dine-in, Not Picked for unserved take-away |
| OrderController.ColorOf | Restaurant-backend/controllers/orderController.js:156 | green, orange, gray for the same three stages |
| OrderController.TotalQty | Restaurant-backend/controllers/orderController.js:153 | the quantities summed, a missing one as 0: non-negative when no quantity is negative, at least the line count when every quantity is at least 1, 0 when none is given |
| OrderController.ViewOf | Restaurant-backend/controllers/orderController.js:146-162 | the entry keeps id, item count and items, and carries the quantity total; when the order's table is found it carries that table's id and its number and chairs (null when 0), otherwise all three are null; it labels the type and carries the status and colour |
| OrderController.StatusMatchesColor | Restaurant-backend/controllers/orderController.js:155-156 | status and colour always name the same stage |
| OrderController.Listing | Restaurant-backend/controllers/orderController.js:146 | one entry per order, in order |
| UserDirectory.FindContact | Restaurant-backend/routes/user.js:19 | the position of the user with exactly this contact, or none exactly when no user has it |
| UserDirectory.UpdateKeepsValid | Restaurant-backend/routes/user.js:23-26 | updating a user without touching id or contact keeps ids and contacts unique |
| UserDirectory.AppendKeepsValid | Restaurant-backend/routes/user.js:42-47 | adding a valid user under a fresh id and an absent contact keeps ids and contacts unique |
| UserDirectory.Users.Upsert | Restaurant-backend/routes/user.js:8-52 | a missing or empty contact is 400 with no change; an existing trimmed contact has its head count replaced when given and name and address when non-empty, nothing added; a new contact needs name and address, else 400; then exactly one user under the trimmed contact is added, one person by default |
| UserDirectory.Users.Get | Restaurant-backend/routes/user.js:66-81 | with a non-empty contact, the user whose contact is the trimmed query or 404, found exactly when such a user exists (the schema's `trim` setter at Restaurant-backend/models/userModel.js:8-13 applies to the filter); without, all users |
| UserDirectory.Contacts | Restaurant-backend/routes/user.js:96 | exactly the contacts some user has |
| UserDirectory.ContactCount | Restaurant-backend/routes/user.js:96-97 | distinct contacts never outnumber users, and equal them under the unique index |
| UserDirectory.Users.UniqueContactCount | Restaurant-backend/routes/user.js:113-114 | the count of distinct contacts, which is the number of users |
| UserDirectory.UpsertThenGet | Restaurant-backend/routes/user.js:19-26 | after an update, looking up the contact finds the updated user at its place |
| Cart.Total | restuarant-app/src/pages/Mobile/OrderPage.jsx:73 | the cart total, the sum of price times quantity; its properties are Cart.TotalAppend, Cart.TotalNonNegative and Cart.IncrementTotal |
| Cart.TotalAppend | restuarant-app/src/pages/Mobile/OrderPage.jsx:73 | the total of two carts together is the sum of their totals |
| Cart.TotalNonNegative | restuarant-app/src/pages/Mobile/OrderPage.jsx:73 | non-negative prices and quantities give a non-negative total |
| Cart.Incremented | restuarant-app/src/pages/Mobile/OrderPage.jsx:75-80 | same length and order; exactly the lines with the id gain one unit |
| Cart.IncrementTotal | restuarant-app/src/pages/Mobile/OrderPage.jsx:73-80 | one more unit raises the total by that product's price |
| Cart.Lowered | restuarant-app/src/pages/Mobile/OrderPage.jsx:85-87 | same length and order; exactly the lines with the id lose one unit |
| Cart.Positive | restuarant-app/src/pages/Mobile/OrderPage.jsx:88 | only lines of positive quantity remain |
| Cart.PositiveMembers | restuarant-app/src/pages/Mobile/OrderPage.jsx:88 | a line remains exactly when it was there with positive quantity |
| Cart.PositiveAppend | restuarant-app/src/pages/Mobile/OrderPage.jsx:88 | the filter keeps relative order |
| Cart.PositiveKeepsAll | restuarant-app/src/pages/Mobile/OrderPage.jsx:88 | a cart of positive quantities passes the filter unchanged |
| Cart.Decremented | restuarant-app/src/pages/Mobile/OrderPage.jsx:82-89 | every remaining line has a positive quantity and every other line of positive quantity survives |
| Cart.DecrementUndoesIncrement | restuarant-app/src/pages/Mobile/OrderPage.jsx:75-89 | on a cart of positive quantities, one decrement undoes one increment |
| Cart.Removed | restuarant-app/src/pages/Mobile/OrderPage.jsx:91-92 | no line with the id remains |
| Cart.RemovedMembers | restuarant-app/src/pages/Mobile/OrderPage.jsx:91-92 | a line remains exactly when it was there with another id |
| Cart.RemovedAppend | restuarant-app/src/pages/Mobile/OrderPage.jsx:92 | removal keeps relative order |
| Cart.RemovedAbsent | restuarant-app/src/pages/Mobile/OrderPage.jsx:91-92 | removing twice is removing once, and an absent id changes nothing |
| Cart.AssignChefs | restuarant-app/src/pages/Mobile/OrderPage.jsx:94-100 | with no chefs the cart as it is; otherwise line i tagged with chef i mod n, nothing else changed |
| Cart.ModOfSplit | restuarant-app/src/pages/Mobile/OrderPage.jsx:98 | `x % n` is the remainder of any quotient-remainder split |
| Cart.ModStep | restuarant-app/src/pages/Mobile/OrderPage.jsx:98 | the next line goes to the next chef, wrapping after the last |
| Cart.RoundRobinAlternates | restuarant-app/src/pages/Mobile/OrderPage.jsx:96-99 | with two or more distinct chefs, neighbouring lines never share a chef |
| Cart.Lines | restuarant-app/src/pages/Mobile/OrderPage.jsx:193-197 | one request line per cart line with its name, quantity and price |
| Cart.TagsNotSent | restuarant-app/src/pages/Mobile/OrderPage.jsx:176-197 | the chef tags do not change the lines sent |
| Cart.ShownTotal | restuarant-app/src/pages/Mobile/OrderPage.jsx:145 | the amount shown on the thank-you page equals the amount charged |
| Cart.ChargedTotal | restuarant-app/src/pages/Mobile/OrderPage.jsx:177 | the charge exceeds the cart total by 5 exactly on the dine-in tab and by 55 exactly on the take-away tab |
| Cart.ShownIsCharged | restuarant-app/src/pages/Mobile/OrderPage.jsx:145 | the total shown after ordering is the amount charged: total + 5 for dine-in and + 55 for take-away |
| Cart.PrepTime | restuarant-app/src/pages/Mobile/OrderPage.jsx:181 | never 0: the line's own preparation time when it is present and non-zero, otherwise 10; positive unless the line's own time is negative |
| Cart.CookingTime | restuarant-app/src/pages/Mobile/OrderPage.jsx:178-184 | 10 for an empty cart; otherwise the integer nearest the mean preparation time, halves rounded up |
| Cart.RoundedMean | restuarant-app/src/pages/Mobile/OrderPage.jsx:180-183 | `Math.round(sum / n)`: the nearest integer, halves rounded up |
| Cart.PrepSumBounds | restuarant-app/src/pages/Mobile/OrderPage.jsx:181 | n preparation times in [lo, hi] sum to between n·lo and n·hi |
| Cart.RoundedMeanBounds | restuarant-app/src/pages/Mobile/OrderPage.jsx:180-183 | the rounded mean of values in [lo, hi] is in [lo, hi] |
| Cart.MulMono | restuarant-app/src/pages/Mobile/OrderPage.jsx:181-182 | multiplying by a positive count keeps order |
| Cart.CookingTimeBounds | restuarant-app/src/pages/Mobile/OrderPage.jsx:178-184 | the cooking time lies between the shortest and longest preparation time, a missing one counting as 10 |
| Cart.PrepSum | restuarant-app/src/pages/Mobile/OrderPage.jsx:181 | non-negative preparation times have a non-negative sum |
| Cart.CookingTimeNonNegative | restuarant-app/src/pages/Mobile/OrderPage.jsx:178-184 | non-negative preparation times give a non-negative cooking time |
| Cart.ValidPartySize | restuarant-app/src/pages/Mobile/OrderPage.jsx:187 | at least 1, and the head count when that is positive |
| Cart.OverStocked | restuarant-app/src/pages/Mobile/OrderPage.jsx:160-162 | a line asks for more units than its stock, a missing stock counting as 0 |
| Cart.PayloadFor | restuarant-app/src/pages/Mobile/OrderPage.jsx:176-206 | the body carries "dine-in" exactly on the dine-in tab and "take-away" exactly on the other; the guest's id and contact; the lines without chef tags; the charged total as both amount and total; the cooking time; the first chef exactly when there is one; and a party size of at least 1, the head count when positive, exactly on the dine-in tab |
| Cart.PlaceOrder | restuarant-app/src/pages/Mobile/OrderPage.jsx:152-206 | an empty cart sends nothing; otherwise the first line over its stock (a missing stock as 0) is reported and nothing sent; otherwise the request body derived from the cart is sent |
| Cart.KindsParse | restuarant-app/src/pages/Mobile/OrderPage.jsx:186 | the server parses the two spellings the page sends as dine-in and take-away |
| Cart.PayloadKind | restuarant-app/src/pages/Mobile/OrderPage.jsx:186-190 | each tab's body carries an order type the server reads as that tab |
| Cart.PayloadLines | restuarant-app/src/pages/Mobile/OrderPage.jsx:193-197 | the body of a non-empty cart carries its non-empty lines without chef tags |
| Cart.PayloadAmount | restuarant-app/src/pages/Mobile/OrderPage.jsx:198-199 | the body carries the charged total as amount and total, non-negative for non-negative lines |
| Cart.PayloadCookingTime | restuarant-app/src/pages/Mobile/OrderPage.jsx:200 | the body carries the cooking time, non-negative for non-negative preparation times |
| Cart.TakeAwayAdmitted | restuarant-app/src/pages/Mobile/OrderPage.jsx:189-202 | a take-away body from such a cart passes every server check and is admitted with its lines, amount and cooking time |
| Cart.DineInAdmitted | restuarant-app/src/pages/Mobile/OrderPage.jsx:189-206 | a dine-in body from such a cart is admitted exactly when the contact is non-empty and, trimmed, names a user |
| ProductPicker.ItemOf | restuarant-app/src/pages/Mobile/CategoryProduct.jsx:91 | the selected line keeps the product's id, name and price, with the given quantity |
| ProductPicker.FindItem | restuarant-app/src/pages/Mobile/CategoryProduct.jsx:87-89 | the first line with the id, or none exactly when no line has it |
| ProductPicker.FindUnique | restuarant-app/src/pages/Mobile/CategoryProduct.jsx:87-89 | with unique ids each line is found at its own position |
| ProductPicker.Selection | restuarant-app/src/pages/Mobile/CategoryProduct.jsx:86-107 | a positive quantity replaces the product's line in place (same length, others kept) or appends it after the unchanged lines; otherwise the product's line is spliced out, or the list is left alone |
| ProductPicker.ReplaceKeeps | restuarant-app/src/pages/Mobile/CategoryProduct.jsx:92-95 | replacing a line by one with the same id keeps ids unique and the other lines |
| ProductPicker.AppendKeeps | restuarant-app/src/pages/Mobile/CategoryProduct.jsx:97 | appending a new id keeps ids unique and the other lines |
| ProductPicker.SpliceKeeps | restuarant-app/src/pages/Mobile/CategoryProduct.jsx:100-103 | splicing a line out keeps ids unique and the other lines, and drops its id |
| ProductPicker.SelectionKeepsUnique | restuarant-app/src/pages/Mobile/CategoryProduct.jsx:86-107 | unique ids stay unique, the product is selected exactly when the quantity is positive, and other lines are kept |
| ProductPicker.KeepsAgreement | restuarant-app/src/pages/Mobile/CategoryProduct.jsx:80-107 | after an update the quantity shown for each selected line is its positive quantity and every product shown positive is selected |
| ProductPicker.Picker.Current | restuarant-app/src/pages/Mobile/CategoryProduct.jsx:111 | the quantity shown, 0 when missing |
| ProductPicker.Picker.UpdateSelection | restuarant-app/src/pages/Mobile/CategoryProduct.jsx:80-108 | the quantity is recorded and the selection becomes the upserted one, the two kept in agreement |
| ProductPicker.Picker.HandleAdd | restuarant-app/src/pages/Mobile/CategoryProduct.jsx:110 | select the product once |
| ProductPicker.Picker.HandleIncrement | restuarant-app/src/pages/Mobile/CategoryProduct.jsx:111 | select one more than shown |
| ProductPicker.Picker.HandleDecrement | restuarant-app/src/pages/Mobile/CategoryProduct.jsx:112-116 | select one less than shown, never below 0 |
| ProductPicker.Up | restuarant-app/src/pages/Mobile/CategoryProduct.jsx:111 | one more, positive for a non-negative quantity |
| ProductPicker.Down | restuarant-app/src/pages/Mobile/CategoryProduct.jsx:113-115 | max(current − 1, 0): never negative |
| ProductPicker.DownUndoesUp | restuarant-app/src/pages/Mobile/CategoryProduct.jsx:110-116 | decrementing after incrementing shows the quantity again |
| ProductPicker.Picker.Next | restuarant-app/src/pages/Mobile/CategoryProduct.jsx:118-122 | no navigation with an empty selection, otherwise the selection is handed on |
| ProductPicker.FirstMatch | restuarant-app/src/pages/Mobile/CategoryProduct.jsx:71-73 | the first product whose lower-cased name includes the lower-cased query, none exactly when none does |
| ProductPicker.Prioritize | restuarant-app/src/pages/Mobile/CategoryProduct.jsx:69-78 | a permutation of the products; a first match past the front moves to the front with the rest in order; otherwise unchanged; with a match, the front matches |
| ProductPicker.MoveToFront | restuarant-app/src/pages/Mobile/CategoryProduct.jsx:75-76 | moving one product to the front keeps the same products |

## Left out

- **Concurrency.** Concurrent requests are not modelled. Each MongoDB conditional update is one atomic step, and no interleavings are modelled.
- **Timers.** The `setInterval` timers that run the sweepers are left out. The sweepers are methods taking `now`.
- **Express and MongoDB plumbing.** Left out: request parsing, response bodies, messages, the connection and route wiring. HTTP outcomes are result constructors. A failing store round trip (the `catch` branches) is not modelled, except the schema refusals, which are modelled as server errors.
- **Object ids and the clock**: not modelled as values. Ids are natural numbers, and a new document's id is a parameter that must be unused. `createdAt` is the `now` passed in.
- **Menus, stats and `Setting.js`.** Menu CRUD, image upload, the statistics and revenue routes, `getRevenueSummary` and `getOrderCountByTypeAndPeriod` are not part of this model. They are file and network I/O, or percentages in floating point. `Setting.js` is not used by the modelled code.
- **Small order routes.** `getOrderById`, `getTotalOrders`, `getTotalRevenue`, `getChefOrderCountById` and `GET /user/:id` are plain lookups and counts with no logic beyond the store. They are not modelled.
- **getOrders: time label and sort.** The time label `toLocaleTimeString` depends on the locale. The `createdAt` descending sort is a store query. The entries are given in collection order.
- **Numbers.** Money, quantities and preparation times are integers. JavaScript's floating point and NaN are not modelled.
- **JavaScript typing.**
  - A request field that is present but not a number, or not an array, is treated as missing.
  - `served` in `updateOrderStatus` is a boolean. Its body value is not modelled with JavaScript truthiness.
  - A non-string `type` is not modelled.
- **Strings.** `trim` and `toLowerCase` are modelled on ASCII only. Unicode white space and case mappings are left out.
- **numberOfPersons null.** In the user upsert, a `numberOfPersons` of null is treated like an absent one, which is what `??` does.
- TableRegistry.Tables.Renumber: does not record that a table already holding `i + 1` is not saved again. The model has no save timestamps, so the skipped save changes nothing observable in it.
- Cart.PlaceOrder leaves out the swipe gesture, the alerts, the loading flag, the axios call with its error messages, and the navigation to the thank-you page. Those are UI and network effects.
- **Product ids.** On the product picker, a product always has `_id` (menu documents come from the store), so `product._id ?? product.id` is the id.
- **Empty search.** A missing `searchQuery` is the empty query.
- **Fetching products.** Product fetching and infinite scroll are I/O and DOM handling.
- **Renumbering before the index.** A renumbering in a store without the unique index on `number` is not modelled: the saves in `TableRegistry.Tables.Renumber` respect the index.
