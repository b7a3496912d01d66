/**
 * The product picker of a menu category: the selection kept while the customer
 * taps the quantity buttons, the search that moves the first matching product to
 * the front, and the guard before the order page.
 */
module ProductPicker {
  import opened Wrappers
  import Text
  import Cart

  /** A menu product as the picker lists it; `_id` is always present on menu documents. */
  datatype Product = Product(
    id: nat, name: string, price: int, stockQuantity: Option<int>, averagePrepTime: Option<int>)

  /** `{ ...product, quantity }`: the product as a selected line. */
  function ItemOf(p: Product, q: int): (r: Cart.CartItem)
    ensures r.id == p.id && r.quantity == q && r.name == p.name && r.price == p.price
  {
    Cart.CartItem(p.id, p.name, p.price, q, p.stockQuantity, p.averagePrepTime, None)
  }

  /* ----------------------------------------------------------------------
     The selection
     ---------------------------------------------------------------------- */

  predicate UniqueIds(s: seq<Cart.CartItem>) {
    forall i, j :: 0 <= i < j < |s| ==> s[i].id != s[j].id
  }

  /** `findIndex(item => item._id === id)`: the first line with this id. */
  function FindItem(s: seq<Cart.CartItem>, id: nat): (r: Option<nat>)
    ensures r.Some? ==> r.value < |s| && s[r.value].id == id
                        && forall k :: 0 <= k < r.value ==> s[k].id != id
    ensures r.None? <==> forall k :: 0 <= k < |s| ==> s[k].id != id
  {
    if s == [] then None
    else if s[0].id == id then Some(0)
    else match FindItem(s[1..], id)
         case None => None
         case Some(k) => Some(k + 1)
  }

  /** Under unique ids, the line at `i` is the one `FindItem` finds. */
  lemma FindUnique(s: seq<Cart.CartItem>, i: int)
    requires UniqueIds(s) && 0 <= i < |s|
    ensures FindItem(s, s[i].id) == Some(i)
  {
    var f := FindItem(s, s[i].id);
    assert f.Some?;
  }

  /**
   * The selection after `updateSelection(product, q)`.  A positive quantity
   * replaces the product's line in place or appends a new line at the end; any other
   * quantity removes the product's line, and leaves a selection without one alone.
   */
  function Selection(s: seq<Cart.CartItem>, p: Product, q: int): (r: seq<Cart.CartItem>)
    ensures q > 0 && FindItem(s, p.id).Some? ==>
              var i := FindItem(s, p.id).value;
              |r| == |s| && r[i] == ItemOf(p, q) && forall k :: 0 <= k < |s| && k != i ==> r[k] == s[k]
    ensures q > 0 && FindItem(s, p.id).None? ==>
              |r| == |s| + 1 && r[..|s|] == s && r[|s|] == ItemOf(p, q)
    ensures q <= 0 && FindItem(s, p.id).Some? ==>
              var i := FindItem(s, p.id).value;
              |r| == |s| - 1 && r[..i] == s[..i] && r[i..] == s[i + 1..]
    ensures q <= 0 && FindItem(s, p.id).None? ==> r == s
  {
    match FindItem(s, p.id)
    case Some(i) => if q > 0 then s[i := ItemOf(p, q)] else s[..i] + s[i + 1..]
    case None => if q > 0 then s + [ItemOf(p, q)] else s
  }

  /** Every line of `r` with an id other than `id` is a line of `s`, and conversely. */
  ghost predicate SameOthers(s: seq<Cart.CartItem>, r: seq<Cart.CartItem>, id: nat) {
    && (forall k :: 0 <= k < |s| && s[k].id != id ==> s[k] in r)
    && (forall k :: 0 <= k < |r| && r[k].id != id ==> r[k] in s)
  }

  /** Replacing a line by one with the same id keeps the ids distinct and the other lines. */
  lemma ReplaceKeeps(s: seq<Cart.CartItem>, i: int, x: Cart.CartItem)
    requires UniqueIds(s) && 0 <= i < |s| && x.id == s[i].id
    ensures UniqueIds(s[i := x]) && SameOthers(s, s[i := x], x.id)
  {
    var r := s[i := x];
    forall k | 0 <= k < |s| && s[k].id != x.id ensures s[k] in r {
      assert r[k] == s[k];
    }
    forall k | 0 <= k < |r| && r[k].id != x.id ensures r[k] in s {
      assert r[k] == s[k];
    }
  }

  /** Appending a line with a new id keeps the ids distinct and the other lines. */
  lemma AppendKeeps(s: seq<Cart.CartItem>, x: Cart.CartItem)
    requires UniqueIds(s) && forall k :: 0 <= k < |s| ==> s[k].id != x.id
    ensures UniqueIds(s + [x]) && SameOthers(s, s + [x], x.id)
  {
    var r := s + [x];
    forall k | 0 <= k < |s| && s[k].id != x.id ensures s[k] in r {
      assert r[k] == s[k];
    }
    forall k | 0 <= k < |r| && r[k].id != x.id ensures r[k] in s {
      assert k < |s| && r[k] == s[k];
    }
  }

  /** Splicing out the line at `i` keeps the ids distinct and the other lines, and drops its id. */
  lemma SpliceKeeps(s: seq<Cart.CartItem>, i: int)
    requires UniqueIds(s) && 0 <= i < |s|
    ensures UniqueIds(s[..i] + s[i + 1..]) && SameOthers(s, s[..i] + s[i + 1..], s[i].id)
    ensures FindItem(s[..i] + s[i + 1..], s[i].id).None?
  {
    var r := s[..i] + s[i + 1..];
    assert forall k :: 0 <= k < i ==> r[k] == s[k];
    assert forall k :: i <= k < |r| ==> r[k] == s[k + 1];
    forall a, b | 0 <= a < b < |r| ensures r[a].id != r[b].id {
      var a' := if a < i then a else a + 1;
      var b' := if b < i then b else b + 1;
      assert r[a] == s[a'] && r[b] == s[b'];
    }
    forall k | 0 <= k < |s| && s[k].id != s[i].id ensures s[k] in r {
      if k < i {
        assert r[k] == s[k];
      } else {
        assert r[k - 1] == s[k];
      }
    }
    forall k | 0 <= k < |r| ensures r[k].id != s[i].id {
      var k' := if k < i then k else k + 1;
      assert r[k] == s[k'];
    }
    forall k | 0 <= k < |r| && r[k].id != s[i].id ensures r[k] in s {
      var k' := if k < i then k else k + 1;
      assert r[k] == s[k'];
    }
  }

  /**
   * Distinct ids stay distinct, the product is selected exactly when its quantity is
   * positive and then with that quantity, and the other lines are kept.
   */
  lemma SelectionKeepsUnique(s: seq<Cart.CartItem>, p: Product, q: int)
    requires UniqueIds(s)
    ensures UniqueIds(Selection(s, p, q))
    ensures q > 0 ==> exists k :: 0 <= k < |Selection(s, p, q)| && Selection(s, p, q)[k] == ItemOf(p, q)
    ensures q <= 0 ==> FindItem(Selection(s, p, q), p.id).None?
    ensures SameOthers(s, Selection(s, p, q), p.id)
  {
    var r := Selection(s, p, q);
    match FindItem(s, p.id)
    case Some(i) =>
      if q > 0 {
        ReplaceKeeps(s, i, ItemOf(p, q));
        assert r == s[i := ItemOf(p, q)] && r[i] == ItemOf(p, q);
      } else {
        SpliceKeeps(s, i);
        assert r == s[..i] + s[i + 1..];
      }
    case None =>
      if q > 0 {
        AppendKeeps(s, ItemOf(p, q));
        assert r == s + [ItemOf(p, q)] && r[|s|] == ItemOf(p, q);
      }
  }

  /** The picker's state: the quantity shown per product id and the selected lines. */
  class Picker {
    var quantities: map<nat, int>
    var selected: seq<Cart.CartItem>

    /**
     * Selected ids are distinct, every selected line carries the positive quantity
     * shown for it, and every product shown with a positive quantity is selected.
     */
    ghost predicate Valid()
      reads this
    {
      && UniqueIds(selected)
      && (forall k :: 0 <= k < |selected| ==>
            selected[k].id in quantities && quantities[selected[k].id] == selected[k].quantity > 0)
      && (forall id :: id in quantities && quantities[id] > 0 ==> FindItem(selected, id).Some?)
    }

    constructor ()
      ensures Valid() && quantities == map[] && selected == []
    {
      quantities := map[];
      selected := [];
    }

    /** `quantities[id] || 0`: the quantity shown for a product, 0 when none is. */
    function Current(id: nat): (n: int)
      reads this
      ensures id in quantities && quantities[id] != 0 ==> n == quantities[id]
      ensures id !in quantities || quantities[id] == 0 ==> n == 0
    {
      if id in quantities then quantities[id] else 0
    }

    /**
     * `updateSelection(product, q)`: record the quantity, then rebuild the selection
     * from a copy of it by index assignment, append, or `splice`.
     */
    method UpdateSelection(p: Product, q: int)
      requires Valid()
      modifies this
      ensures Valid()
      ensures quantities == old(quantities)[p.id := q]
      ensures selected == Selection(old(selected), p, q)
    {
      SelectionKeepsUnique(selected, p, q);
      ghost var before := selected;
      quantities := quantities[p.id := q];
      var existing := FindItem(selected, p.id);
      if q > 0 {
        var item := ItemOf(p, q);
        if existing.Some? {
          var updated := selected;
          updated := updated[existing.value := item];
          selected := updated;
        } else {
          selected := selected + [item];
        }
      } else if existing.Some? {
        var i := existing.value;
        var updated := selected;
        updated := updated[..i] + updated[i + 1..];
        selected := updated;
      }
      assert selected == Selection(before, p, q);
      KeepsAgreement(before, old(quantities), selected, p, q);
    }

    /** `handleAdd`: the product is selected once. */
    method HandleAdd(p: Product)
      requires Valid()
      modifies this
      ensures Valid()
      ensures quantities == old(quantities)[p.id := 1]
      ensures selected == Selection(old(selected), p, 1)
    {
      UpdateSelection(p, 1);
    }

    /** `handleIncrement`: one more than the quantity shown. */
    method HandleIncrement(p: Product)
      requires Valid()
      modifies this
      ensures Valid()
      ensures quantities == old(quantities)[p.id := Up(old(Current(p.id)))]
      ensures selected == Selection(old(selected), p, Up(old(Current(p.id))))
    {
      UpdateSelection(p, Up(Current(p.id)));
    }

    /** `handleDecrement`: one less than the quantity shown, never below 0. */
    method HandleDecrement(p: Product)
      requires Valid()
      modifies this
      ensures Valid()
      ensures quantities == old(quantities)[p.id := Down(old(Current(p.id)))]
      ensures selected == Selection(old(selected), p, Down(old(Current(p.id))))
    {
      UpdateSelection(p, Down(Current(p.id)));
    }

    /** `handleNext`: no navigation with an empty selection; otherwise the selection is handed on. */
    function Next(): (r: Option<seq<Cart.CartItem>>)
      reads this
      ensures r.None? <==> selected == []
      ensures r.Some? ==> r.value == selected && |r.value| > 0
    {
      if |selected| == 0 then None else Some(selected)
    }
  }

  /** The quantity `handleIncrement` asks for. */
  function Up(current: int): (n: int)
    ensures n == current + 1
    ensures current >= 0 ==> n > 0
  {
    current + 1
  }

  /** The quantity `handleDecrement` asks for: `max(current - 1, 0)`. */
  function Down(current: int): (n: int)
    ensures n >= 0
    ensures current >= 1 ==> n == current - 1
    ensures current <= 1 ==> n == 0
  {
    var next := current - 1;
    if next > 0 then next else 0
  }

  /** Incrementing and then decrementing a non-negative quantity shows it again. */
  lemma DownUndoesUp(current: int)
    requires current >= 0
    ensures Down(Up(current)) == current
  {
  }

  /** The quantities and the selection agree after an update of one product. */
  lemma KeepsAgreement(s: seq<Cart.CartItem>, m: map<nat, int>, r: seq<Cart.CartItem>, p: Product, q: int)
    requires UniqueIds(s)
    requires forall k :: 0 <= k < |s| ==> s[k].id in m && m[s[k].id] == s[k].quantity > 0
    requires forall id :: id in m && m[id] > 0 ==> FindItem(s, id).Some?
    requires r == Selection(s, p, q)
    ensures UniqueIds(r)
    ensures forall k :: 0 <= k < |r| ==> r[k].id in m[p.id := q] && m[p.id := q][r[k].id] == r[k].quantity > 0
    ensures forall id :: id in m[p.id := q] && m[p.id := q][id] > 0 ==> FindItem(r, id).Some?
  {
    SelectionKeepsUnique(s, p, q);
    var m' := m[p.id := q];
    forall k | 0 <= k < |r| ensures r[k].id in m' && m'[r[k].id] == r[k].quantity > 0 {
      if r[k].id == p.id {
        assert q > 0;
        var j :| 0 <= j < |r| && r[j] == ItemOf(p, q);
        FindUnique(r, j);
        FindUnique(r, k);
      } else {
        assert r[k] in s;
        var j :| 0 <= j < |s| && s[j] == r[k];
      }
    }
    forall id | id in m' && m'[id] > 0 ensures FindItem(r, id).Some? {
      if id == p.id {
        var j :| 0 <= j < |r| && r[j] == ItemOf(p, q);
      } else {
        var j := FindItem(s, id).value;
        assert s[j] in r;
      }
    }
  }

  /* ----------------------------------------------------------------------
     Search prioritisation
     ---------------------------------------------------------------------- */

  /** `p.name.toLowerCase().includes(searchQuery.toLowerCase())`. */
  predicate Matches(p: Product, query: string) {
    Text.Includes(Text.Lower(p.name), Text.Lower(query))
  }

  /** `findIndex` with that test: the first matching product. */
  function FirstMatch(s: seq<Product>, query: string): (r: Option<nat>)
    ensures r.Some? ==> r.value < |s| && Matches(s[r.value], query)
                        && forall k :: 0 <= k < r.value ==> !Matches(s[k], query)
    ensures r.None? <==> forall k :: 0 <= k < |s| ==> !Matches(s[k], query)
  {
    if s == [] then None
    else if Matches(s[0], query) then Some(0)
    else
      assert forall k :: 1 <= k < |s| ==> s[k] == s[1..][k - 1];
      match FirstMatch(s[1..], query)
      case None => None
      case Some(k) => Some(k + 1)
  }

  /**
   * The products as shown: with a non-empty query, the first product whose name
   * contains it, ignoring case, is spliced out and put in front; the list is
   * otherwise shown as fetched.
   */
  method Prioritize(products: seq<Product>, query: string) returns (visible: seq<Product>)
    ensures multiset(visible) == multiset(products) && |visible| == |products|
    ensures query != [] && FirstMatch(products, query).Some? && FirstMatch(products, query).value > 0 ==>
              var i := FirstMatch(products, query).value;
              visible == [products[i]] + products[..i] + products[i + 1..]
    ensures query == [] || FirstMatch(products, query).None? || FirstMatch(products, query).value == 0 ==>
              visible == products
    ensures query != [] && FirstMatch(products, query).Some? ==> Matches(visible[0], query)
  {
    visible := products;
    if query != [] {
      var index := FirstMatch(visible, query);
      if index.Some? && index.value != 0 {
        var i := index.value;
        var matched := visible[i];
        visible := visible[..i] + visible[i + 1..];
        visible := [matched] + visible;
        MoveToFront(products, i);
      }
    }
  }

  /** Moving one product to the front keeps the same products. */
  lemma MoveToFront(s: seq<Product>, i: int)
    requires 0 <= i < |s|
    ensures multiset([s[i]] + (s[..i] + s[i + 1..])) == multiset(s)
    ensures [s[i]] + (s[..i] + s[i + 1..]) == [s[i]] + s[..i] + s[i + 1..]
  {
    assert s == s[..i] + [s[i]] + s[i + 1..];
  }
}
