/**
 * The customer's cart on the order page: its total, the quantity buttons, the
 * round-robin chef tags, the fee for each tab, and the checks and the request body
 * of placing the order.
 */
module Cart {
  import opened Wrappers
  import opened Models
  import OrderController
  import UserDirectory
  import Text

  /** A cart line: a menu product spread together with its chosen quantity. */
  datatype CartItem = CartItem(
    id: nat, name: string, price: int, quantity: int,
    stockQuantity: Option<int>, averagePrepTime: Option<int>, assignedChef: Option<nat>)

  /* ----------------------------------------------------------------------
     Total and the quantity buttons
     ---------------------------------------------------------------------- */

  /** `items.reduce((sum, item) => sum + item.price * item.quantity, 0)`. */
  function Total(s: seq<CartItem>): int {
    if s == [] then 0 else s[0].price * s[0].quantity + Total(s[1..])
  }

  /** The total of two carts together is the sum of their totals. */
  lemma {:induction false} TotalAppend(a: seq<CartItem>, b: seq<CartItem>)
    ensures Total(a + b) == Total(a) + Total(b)
  {
    if a == [] {
      assert a + b == b;
    } else {
      TotalAppend(a[1..], b);
      assert (a + b)[1..] == a[1..] + b;
    }
  }

  /** The summed unit price of the lines carrying `id`. */
  function PriceOf(s: seq<CartItem>, id: nat): int {
    if s == [] then 0 else (if s[0].id == id then s[0].price else 0) + PriceOf(s[1..], id)
  }

  /** `increment(id)`: every line with this id gains one unit; nothing else changes. */
  function Incremented(s: seq<CartItem>, id: nat): (r: seq<CartItem>)
    ensures |r| == |s|
    ensures forall k :: 0 <= k < |s| ==>
              r[k] == if s[k].id == id then s[k].(quantity := s[k].quantity + 1) else s[k]
  {
    if s == [] then []
    else [if s[0].id == id then s[0].(quantity := s[0].quantity + 1) else s[0]] + Incremented(s[1..], id)
  }

  /** One more unit of `id` raises the total by that product's price. */
  lemma {:induction false} IncrementTotal(s: seq<CartItem>, id: nat)
    ensures Total(Incremented(s, id)) == Total(s) + PriceOf(s, id)
  {
    if s != [] {
      IncrementTotal(s[1..], id);
      assert Incremented(s, id)[1..] == Incremented(s[1..], id);
      var t := Incremented(s, id)[0];
      if s[0].id == id {
        assert t.price * t.quantity == s[0].price * s[0].quantity + s[0].price;
      }
    }
  }

  /** The `map` half of `decrement(id)`. */
  function Lowered(s: seq<CartItem>, id: nat): (r: seq<CartItem>)
    ensures |r| == |s|
    ensures forall k :: 0 <= k < |s| ==>
              r[k] == if s[k].id == id then s[k].(quantity := s[k].quantity - 1) else s[k]
  {
    if s == [] then []
    else [if s[0].id == id then s[0].(quantity := s[0].quantity - 1) else s[0]] + Lowered(s[1..], id)
  }

  /** `.filter(item => item.quantity > 0)`. */
  function Positive(s: seq<CartItem>): (r: seq<CartItem>)
    ensures |r| <= |s|
    ensures forall k :: 0 <= k < |r| ==> r[k].quantity > 0
  {
    if s == [] then []
    else if s[0].quantity > 0 then [s[0]] + Positive(s[1..]) else Positive(s[1..])
  }

  /** The filter keeps exactly the lines of positive quantity. */
  lemma {:induction false} PositiveMembers(s: seq<CartItem>)
    ensures forall x :: x in Positive(s) <==> x in s && x.quantity > 0
  {
    if s != [] {
      PositiveMembers(s[1..]);
      assert s == [s[0]] + s[1..];
    }
  }

  /** Filtering keeps relative order: it distributes over concatenation. */
  lemma {:induction false} PositiveAppend(a: seq<CartItem>, b: seq<CartItem>)
    ensures Positive(a + b) == Positive(a) + Positive(b)
  {
    if a == [] {
      assert a + b == b;
    } else {
      var ab := a + b;
      assert ab[0] == a[0] && ab[1..] == a[1..] + b;
      PositiveAppend(a[1..], b);
      var head := if a[0].quantity > 0 then [a[0]] else [];
      assert Positive(ab) == head + Positive(a[1..] + b);
      assert Positive(a) == head + Positive(a[1..]);
      assert head + (Positive(a[1..]) + Positive(b)) == (head + Positive(a[1..])) + Positive(b);
    }
  }

  /** A cart whose every line has a positive quantity passes the filter unchanged. */
  lemma {:induction false} PositiveKeepsAll(s: seq<CartItem>)
    requires forall k :: 0 <= k < |s| ==> s[k].quantity > 0
    ensures Positive(s) == s
  {
    if s != [] {
      PositiveKeepsAll(s[1..]);
    }
  }

  /** `decrement(id)`: one unit fewer on every line with this id, dropping lines that reach 0. */
  function Decremented(s: seq<CartItem>, id: nat): (r: seq<CartItem>)
    ensures |r| <= |s|
    ensures forall k :: 0 <= k < |r| ==> r[k].quantity > 0
    ensures forall k :: 0 <= k < |s| && s[k].id != id && s[k].quantity > 0 ==> s[k] in r
  {
    var lowered := Lowered(s, id);
    PositiveMembers(lowered);
    assert forall k :: 0 <= k < |s| && s[k].id != id ==> lowered[k] == s[k];
    Positive(lowered)
  }

  /** On a cart of positive quantities, one decrement undoes one increment. */
  lemma DecrementUndoesIncrement(s: seq<CartItem>, id: nat)
    requires forall k :: 0 <= k < |s| ==> s[k].quantity > 0
    ensures Decremented(Incremented(s, id), id) == s
  {
    assert Lowered(Incremented(s, id), id) == s;
    PositiveKeepsAll(s);
  }

  /** `removeItem(id)`: the lines without this id, in order. */
  function Removed(s: seq<CartItem>, id: nat): (r: seq<CartItem>)
    ensures |r| <= |s|
    ensures forall k :: 0 <= k < |r| ==> r[k].id != id
  {
    if s == [] then []
    else if s[0].id != id then [s[0]] + Removed(s[1..], id) else Removed(s[1..], id)
  }

  /** Removal keeps exactly the lines with another id. */
  lemma {:induction false} RemovedMembers(s: seq<CartItem>, id: nat)
    ensures forall x :: x in Removed(s, id) <==> x in s && x.id != id
  {
    if s != [] {
      RemovedMembers(s[1..], id);
      assert s == [s[0]] + s[1..];
    }
  }

  /** Removing keeps relative order: it distributes over concatenation. */
  lemma {:induction false} RemovedAppend(a: seq<CartItem>, b: seq<CartItem>, id: nat)
    ensures Removed(a + b, id) == Removed(a, id) + Removed(b, id)
  {
    if a == [] {
      assert a + b == b;
    } else {
      var ab := a + b;
      assert ab[0] == a[0] && ab[1..] == a[1..] + b;
      RemovedAppend(a[1..], b, id);
      var head := if a[0].id != id then [a[0]] else [];
      assert Removed(ab, id) == head + Removed(a[1..] + b, id);
      assert Removed(a, id) == head + Removed(a[1..], id);
      assert head + (Removed(a[1..], id) + Removed(b, id)) == (head + Removed(a[1..], id)) + Removed(b, id);
    }
  }

  /** Removing an id the cart does not hold changes nothing; removing twice is removing once. */
  lemma {:induction false} RemovedAbsent(s: seq<CartItem>, id: nat)
    ensures Removed(Removed(s, id), id) == Removed(s, id)
    ensures (forall k :: 0 <= k < |s| ==> s[k].id != id) ==> Removed(s, id) == s
  {
    if s != [] {
      RemovedAbsent(s[1..], id);
    }
  }

  /* ----------------------------------------------------------------------
     Chef tags, fees and the request body
     ---------------------------------------------------------------------- */

  /** `assignChefs`: with no chefs the cart as it is, otherwise line `i` tagged with chef `i mod n`. */
  function AssignChefs(s: seq<CartItem>, chefs: seq<nat>): (r: seq<CartItem>)
    ensures |r| == |s|
    ensures chefs == [] ==> r == s
    ensures chefs != [] ==> forall i :: 0 <= i < |s| ==>
              r[i] == s[i].(assignedChef := Some(chefs[i % |chefs|]))
  {
    if chefs == [] then s
    else seq(|s|, i requires 0 <= i < |s| => s[i].(assignedChef := Some(chefs[i % |chefs|])))
  }

  /** `x % n` is the remainder of any quotient-remainder split of `x`. */
  lemma ModOfSplit(x: int, n: int, q: int, r: int)
    requires n > 0 && 0 <= r < n && x == q * n + r
    ensures x % n == r
  {
    var q', r' := x / n, x % n;
    var d := q - q';
    assert d * n == r' - r;
    assert d >= 1 ==> d * n >= n;
    assert d <= -1 ==> d * n <= -n;
  }

  /** Stepping one position on moves one chef on, wrapping after the last. */
  lemma ModStep(i: int, n: int)
    requires 0 <= i && n > 0
    ensures (i + 1) % n == if i % n == n - 1 then 0 else i % n + 1
  {
    var q, a := i / n, i % n;
    if a == n - 1 {
      ModOfSplit(i + 1, n, q + 1, 0);
    } else {
      ModOfSplit(i + 1, n, q, a + 1);
    }
  }

  /** With two or more distinct chefs, neighbouring lines never go to the same chef. */
  lemma RoundRobinAlternates(s: seq<CartItem>, chefs: seq<nat>, i: int)
    requires |chefs| >= 2 && forall a, b :: 0 <= a < b < |chefs| ==> chefs[a] != chefs[b]
    requires 0 <= i && i + 1 < |s|
    ensures AssignChefs(s, chefs)[i].assignedChef != AssignChefs(s, chefs)[i + 1].assignedChef
  {
    var n := |chefs|;
    ModStep(i, n);
    var a, b := i % n, (i + 1) % n;
    assert a != b;
    if a < b {
      assert chefs[a] != chefs[b];
    } else {
      assert chefs[b] != chefs[a];
    }
  }

  /** The request's lines: name, quantity and price of each cart line. */
  function Lines(s: seq<CartItem>): (r: seq<Item>)
    ensures |r| == |s|
    ensures forall k :: 0 <= k < |s| ==> r[k] == Item(Some(s[k].name), Some(s[k].quantity), Some(s[k].price))
  {
    if s == [] then [] else [Item(Some(s[0].name), Some(s[0].quantity), Some(s[0].price))] + Lines(s[1..])
  }

  /** The chef tags never reach the request: the lines of a tagged cart are those of the cart. */
  lemma {:induction false} TagsNotSent(s: seq<CartItem>, chefs: seq<nat>)
    ensures Lines(AssignChefs(s, chefs)) == Lines(s)
  {
    var r := AssignChefs(s, chefs);
    assert forall k :: 0 <= k < |s| ==> r[k].name == s[k].name && r[k].quantity == s[k].quantity && r[k].price == s[k].price;
  }

  /** The order page's two tabs. */
  datatype Tab = DineInTab | TakeAwayTab

  /** `total + (orderType === "Take Away" ? 55 : 5)`, as shown on the thank-you page. */
  function ShownTotal(s: seq<CartItem>, tab: Tab): (r: int)
    ensures r == ChargedTotal(s, tab)
  {
    Total(s) + if tab == TakeAwayTab then 55 else 5
  }

  /** `orderType === "Dine In" ? total + 5 : total + 55`, as charged. */
  function ChargedTotal(s: seq<CartItem>, tab: Tab): (r: int)
    ensures r - Total(s) == 5 <==> tab == DineInTab
    ensures r - Total(s) == 55 <==> tab != DineInTab
  {
    if tab == DineInTab then Total(s) + 5 else Total(s) + 55
  }

  /** The amount shown after ordering is the amount charged, on either tab. */
  lemma ShownIsCharged(s: seq<CartItem>, tab: Tab)
    ensures ShownTotal(s, tab) == ChargedTotal(s, tab)
    ensures ChargedTotal(s, tab) == Total(s) + (if tab == DineInTab then 5 else 55)
  {
  }

  /** `i.averagePrepTime || 10`. */
  function PrepTime(i: CartItem): (r: int)
    ensures r != 0
    ensures i.averagePrepTime.GetOr(0) != 0 ==> r == i.averagePrepTime.value
    ensures i.averagePrepTime.GetOr(0) == 0 ==> r == 10
    ensures i.averagePrepTime.GetOr(0) >= 0 ==> r > 0
  {
    if i.averagePrepTime.None? || i.averagePrepTime.value == 0 then 10 else i.averagePrepTime.value
  }

  /** No line of the cart has a negative preparation time. */
  predicate PrepTimesNonNegative(s: seq<CartItem>) {
    forall k :: 0 <= k < |s| ==> PrepTime(s[k]) >= 0
  }

  /** The preparation times summed over the cart. */
  function PrepSum(s: seq<CartItem>): (r: int)
    ensures PrepTimesNonNegative(s) ==> r >= 0
  {
    if s == [] then 0 else PrepTime(s[0]) + PrepSum(s[1..])
  }

  /** `Math.round(sum / n)`: the nearest integer, halves rounded up. */
  function RoundedMean(sum: int, n: int): (r: int)
    requires n > 0
    ensures 2 * n * r <= 2 * sum + n < 2 * n * (r + 1)
  {
    (2 * sum + n) / (2 * n)
  }

  /** The request's `cookingTime`: the rounded mean preparation time, 10 for an empty cart. */
  function CookingTime(s: seq<CartItem>): (r: int)
    ensures |s| == 0 ==> r == 10
    ensures |s| > 0 ==> 2 * |s| * r <= 2 * PrepSum(s) + |s| < 2 * |s| * (r + 1)
  {
    if |s| > 0 then RoundedMean(PrepSum(s), |s|) else 10
  }

  lemma {:induction false} PrepSumBounds(s: seq<CartItem>, lo: int, hi: int)
    requires forall k :: 0 <= k < |s| ==> lo <= PrepTime(s[k]) <= hi
    ensures |s| * lo <= PrepSum(s) <= |s| * hi
  {
    if s != [] {
      var t := s[1..];
      assert forall k :: 0 <= k < |t| ==> t[k] == s[k + 1];
      PrepSumBounds(t, lo, hi);
      assert PrepSum(s) == PrepTime(s[0]) + PrepSum(t);
      OneMore(|t|, lo);
      OneMore(|t|, hi);
    }
  }

  lemma OneMore(n: int, x: int)
    ensures (n + 1) * x == n * x + x
  {
  }

  /** A rounded mean of values in `[lo, hi]` stays in `[lo, hi]`. */
  lemma RoundedMeanBounds(sum: int, n: int, lo: int, hi: int)
    requires n > 0 && n * lo <= sum <= n * hi
    ensures lo <= RoundedMean(sum, n) <= hi
  {
    var r := RoundedMean(sum, n);
    MulMono(n, hi + 1, r);
    MulMono(n, r + 1, lo);
  }

  lemma MulMono(n: int, a: int, b: int)
    requires n > 0
    ensures a <= b ==> n * a <= n * b
    ensures n * (a + 1) == n * a + n
  {
  }

  /** The cooking time lies between the shortest and the longest preparation time. */
  lemma CookingTimeBounds(s: seq<CartItem>, lo: int, hi: int)
    requires |s| > 0
    requires forall k :: 0 <= k < |s| ==> lo <= PrepTime(s[k]) <= hi
    ensures lo <= CookingTime(s) <= hi
  {
    PrepSumBounds(s, lo, hi);
    RoundedMeanBounds(PrepSum(s), |s|, lo, hi);
  }

  /** The signed-in customer as the order page holds it. */
  datatype Guest = Guest(id: Option<nat>, contact: string, numberOfPersons: int)

  /** The body of `POST /api/order`. */
  datatype Payload = Payload(
    kind: string, userId: Option<nat>, contact: string, lines: seq<Item>,
    amount: int, totalAmount: int, cookingTime: int, chef: Option<nat>, partySize: Option<int>)

  /** `numberOfPersons > 0 ? numberOfPersons : 1`. */
  function ValidPartySize(n: int): (p: int)
    ensures p >= 1 && (n > 0 ==> p == n)
  {
    if n > 0 then n else 1
  }

  /** The request body `placeOrder` assembles for a cart that passed its checks. */
  function PayloadFor(items: seq<CartItem>, chefs: seq<nat>, tab: Tab, guest: Guest): (p: Payload)
    ensures p.kind == "dine-in" <==> tab == DineInTab
    ensures p.kind == "take-away" <==> tab == TakeAwayTab
    ensures p.userId == guest.id && p.contact == guest.contact
    ensures p.lines == Lines(items)
    ensures p.amount == p.totalAmount == ChargedTotal(items, tab)
    ensures p.cookingTime == CookingTime(items)
    ensures p.chef.Some? <==> chefs != []
    ensures p.chef.Some? ==> p.chef.value == chefs[0]
    ensures p.partySize.Some? <==> tab == DineInTab
    ensures p.partySize.Some? ==> p.partySize.value >= 1
                                  && (guest.numberOfPersons > 0 ==> p.partySize.value == guest.numberOfPersons)
  {
    TagsNotSent(items, chefs);
    var tagged := AssignChefs(items, chefs);
    var amount := ChargedTotal(items, tab);
    Payload(if tab == DineInTab then "dine-in" else "take-away",
            guest.id, guest.contact, Lines(tagged), amount, amount, CookingTime(items),
            if chefs != [] then Some(chefs[0]) else None,
            if tab == DineInTab then Some(ValidPartySize(guest.numberOfPersons)) else None)
  }

  /** More units than in stock, a missing stock counting as none. */
  predicate OverStocked(i: CartItem)
    ensures i.stockQuantity.None? ==> (OverStocked(i) <==> i.quantity > 0)
    ensures i.stockQuantity.Some? ==> (OverStocked(i) <==> i.quantity > i.stockQuantity.value)
  {
    i.quantity > i.stockQuantity.GetOr(0)
  }

  /** What pressing "place order" does. */
  datatype Checkout = NothingSelected | OverStock(item: CartItem) | Send(payload: Payload)

  /**
   * `placeOrder`: an empty cart sends nothing; otherwise the first line asking for
   * more than is in stock is reported and nothing is sent; otherwise the request
   * body is sent.
   */
  method PlaceOrder(items: seq<CartItem>, chefs: seq<nat>, tab: Tab, guest: Guest) returns (c: Checkout)
    ensures items == [] <==> c == NothingSelected
    ensures c.OverStock? <==> items != [] && exists k :: 0 <= k < |items| && OverStocked(items[k])
    ensures c.OverStock? ==>
              exists k :: 0 <= k < |items| && items[k] == c.item && OverStocked(items[k])
                          && forall j :: 0 <= j < k ==> !OverStocked(items[j])
    ensures c.Send? ==> c.payload == PayloadFor(items, chefs, tab, guest)
                        && forall k :: 0 <= k < |items| ==> !OverStocked(items[k])
  {
    if |items| == 0 {
      return NothingSelected;
    }
    var i := 0;
    while i < |items|
      invariant 0 <= i <= |items|
      invariant forall j :: 0 <= j < i ==> !OverStocked(items[j])
    {
      if items[i].quantity > items[i].stockQuantity.GetOr(0) {
        return OverStock(items[i]);
      }
      i := i + 1;
    }
    c := Send(PayloadFor(items, chefs, tab, guest));
  }

  /** What the server reads of the body. */
  function AsRequest(p: Payload): OrderController.OrderRequest {
    OrderController.OrderRequest(Some(p.kind), Some(p.contact), Some(p.lines),
                                 Some(p.amount), Some(p.totalAmount), Some(p.cookingTime))
  }

  lemma {:induction false} TotalNonNegative(s: seq<CartItem>)
    requires forall k :: 0 <= k < |s| ==> s[k].price >= 0 && s[k].quantity >= 0
    ensures Total(s) >= 0
  {
    if s != [] {
      TotalNonNegative(s[1..]);
    }
  }

  /** The server reads the type the page sends as the tab's order type. */
  lemma KindsParse()
    ensures OrderController.ParseKind("dine-in") == Some(DineIn)
    ensures OrderController.ParseKind("take-away") == Some(TakeAway)
  {
    Text.LowerFixed("dine-in");
    Text.LowerFixed("take-away");
  }

  /** The body carries the tab's type as the server spells it. */
  lemma PayloadKind(items: seq<CartItem>, chefs: seq<nat>, tab: Tab, guest: Guest)
    ensures tab == DineInTab ==> OrderController.ParseKind(PayloadFor(items, chefs, tab, guest).kind) == Some(DineIn)
    ensures tab == TakeAwayTab ==> OrderController.ParseKind(PayloadFor(items, chefs, tab, guest).kind) == Some(TakeAway)
  {
    KindsParse();
  }

  /** The body carries the cart's lines, without the chef tags. */
  lemma PayloadLines(items: seq<CartItem>, chefs: seq<nat>, tab: Tab, guest: Guest)
    requires items != []
    ensures PayloadFor(items, chefs, tab, guest).lines == Lines(items) != []
  {
    TagsNotSent(items, chefs);
  }

  /** The body carries the charged total as both amount and total, non-negative for a cart of non-negative lines. */
  lemma PayloadAmount(items: seq<CartItem>, chefs: seq<nat>, tab: Tab, guest: Guest)
    requires forall k :: 0 <= k < |items| ==> items[k].price >= 0 && items[k].quantity >= 0
    ensures PayloadFor(items, chefs, tab, guest).totalAmount == PayloadFor(items, chefs, tab, guest).amount
    ensures PayloadFor(items, chefs, tab, guest).amount == ChargedTotal(items, tab) >= 0
  {
    TotalNonNegative(items);
  }

  /** The body carries the cooking time, non-negative for non-negative preparation times. */
  lemma PayloadCookingTime(items: seq<CartItem>, chefs: seq<nat>, tab: Tab, guest: Guest)
    requires forall k :: 0 <= k < |items| ==> PrepTime(items[k]) >= 0
    ensures PayloadFor(items, chefs, tab, guest).cookingTime == CookingTime(items) >= 0
  {
    CookingTimeNonNegative(items);
  }

  /**
   * Client and server agree on take-away: the body built from a non-empty cart of
   * non-negative prices, quantities and preparation times passes every check of
   * `createOrder` and is admitted with its lines, its amount as both amount and
   * total, and its cooking time.
   */
  lemma TakeAwayAdmitted(items: seq<CartItem>, chefs: seq<nat>, guest: Guest, users: seq<User>)
    requires items != []
    requires forall k :: 0 <= k < |items| ==> items[k].price >= 0 && items[k].quantity >= 0
    requires forall k :: 0 <= k < |items| ==> PrepTime(items[k]) >= 0
    ensures var p := PayloadFor(items, chefs, TakeAwayTab, guest);
            OrderController.Admit(AsRequest(p), users)
            == Ok(OrderController.Admission(TakeAway, None, 1, p.lines, p.amount, p.amount, p.cookingTime))
  {
    PayloadLines(items, chefs, TakeAwayTab, guest);
    PayloadAmount(items, chefs, TakeAwayTab, guest);
    PayloadCookingTime(items, chefs, TakeAwayTab, guest);
    PayloadKind(items, chefs, TakeAwayTab, guest);
    OrderController.AdmitTakeAway(AsRequest(PayloadFor(items, chefs, TakeAwayTab, guest)), users);
  }

  /**
   * Client and server agree on dine-in: such a body passes every check of
   * `createOrder` but the contact lookup, so it is admitted exactly when the
   * contact is non-empty and, trimmed, names a user.
   */
  lemma DineInAdmitted(items: seq<CartItem>, chefs: seq<nat>, guest: Guest, users: seq<User>)
    requires items != []
    requires forall k :: 0 <= k < |items| ==> items[k].price >= 0 && items[k].quantity >= 0
    requires forall k :: 0 <= k < |items| ==> PrepTime(items[k]) >= 0
    ensures OrderController.Admit(AsRequest(PayloadFor(items, chefs, DineInTab, guest)), users).Ok?
            <==> guest.contact != [] && UserDirectory.FindContact(users, Text.Trim(guest.contact)).Some?
  {
    PayloadLines(items, chefs, DineInTab, guest);
    PayloadAmount(items, chefs, DineInTab, guest);
    PayloadCookingTime(items, chefs, DineInTab, guest);
    PayloadKind(items, chefs, DineInTab, guest);
    OrderController.AdmitDineIn(AsRequest(PayloadFor(items, chefs, DineInTab, guest)), users);
  }

  lemma CookingTimeNonNegative(s: seq<CartItem>)
    requires forall k :: 0 <= k < |s| ==> PrepTime(s[k]) >= 0
    ensures CookingTime(s) >= 0
  {
  }
}
