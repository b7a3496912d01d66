/**
 * The chef collection: the least-loaded pick-and-increment that order creation
 * performs, and the repair of chefs stored without an `ordersTaken` counter.
 */
module Kitchen {
  import opened Wrappers
  import opened Models

  ghost predicate UniqueIds(s: seq<Chef>) {
    forall i, j :: 0 <= i < j < |s| ==> s[i].id != s[j].id
  }

  /**
   * The sort key `ordersTaken` as the database orders it: a missing field sorts
   * before every number, so it weighs as -1 here.
   */
  function Load(c: Chef): int {
    match c.ordersTaken
    case None => -1
    case Some(n) => n
  }

  /** `a` sorts no later than `b` under `{ ordersTaken: 1, _id: 1 }`. */
  predicate NoHeavier(a: Chef, b: Chef) {
    Load(a) < Load(b) || (Load(a) == Load(b) && a.id <= b.id)
  }

  /** Chef `i` is the first one under `{ ordersTaken: 1, _id: 1 }`. */
  predicate Lightest(s: seq<Chef>, i: int) {
    0 <= i < |s| && forall j :: 0 <= j < |s| ==> NoHeavier(s[i], s[j])
  }

  /** The position of the first chef under the sort, scanning the collection. */
  function LeastLoaded(s: seq<Chef>): (r: Option<nat>)
    ensures r.None? <==> s == []
    ensures r.Some? ==> Lightest(s, r.value)
  {
    if s == [] then None
    else match LeastLoaded(s[1..])
      case None => Some(0)
      case Some(k) =>
        assert forall j :: 1 <= j < |s| ==> s[j] == s[1..][j - 1];
        if NoHeavier(s[0], s[k + 1]) then Some(0) else Some(k + 1)
  }

  /** Sort keys are distinct when ids are, so the first chef is unique. */
  lemma LightestUnique(s: seq<Chef>, i: int, j: int)
    requires UniqueIds(s) && Lightest(s, i) && Lightest(s, j)
    ensures i == j
  {
    assert NoHeavier(s[i], s[j]) && NoHeavier(s[j], s[i]);
  }

  /** `$inc: { ordersTaken: 1 }` (a missing counter becomes 1) and `$set: { lastAssignedAt: now }`. */
  function Charge(c: Chef, now: Time): (r: Chef)
    ensures r.id == c.id && r.name == c.name && r.lastAssignedAt == Some(now)
    ensures r.ordersTaken.Some? && r.ordersTaken.value == c.ordersTaken.GetOr(0) + 1
  {
    c.(ordersTaken := Some(c.ordersTaken.GetOr(0) + 1), lastAssignedAt := Some(now))
  }

  /**
   * One chef pick: with no chef nothing changes and there is no chef; otherwise the
   * first chef under the sort is charged and returned as updated.
   */
  ghost predicate Pick(before: seq<Chef>, after: seq<Chef>, now: Time, got: Option<Chef>) {
    if before == [] then after == before && got == None
    else exists i :: Lightest(before, i) && after == before[i := Charge(before[i], now)] && got == Some(after[i])
  }

  /** The orders counted over all chefs, a missing counter as 0. */
  function TotalTaken(s: seq<Chef>): (n: nat)
  {
    if s == [] then 0 else s[0].ordersTaken.GetOr(0) + TotalTaken(s[1..])
  }

  /** Charging one chef raises the orders counted over all chefs by exactly one. */
  lemma {:induction false} ChargeAddsOne(s: seq<Chef>, i: int, now: Time)
    requires 0 <= i < |s|
    ensures TotalTaken(s[i := Charge(s[i], now)]) == TotalTaken(s) + 1
  {
    if i > 0 {
      ChargeAddsOne(s[1..], i - 1, now);
      assert s[i := Charge(s[i], now)][1..] == s[1..][i - 1 := Charge(s[i], now)];
    } else {
      assert s[i := Charge(s[i], now)][1..] == s[1..];
    }
  }

  /** Every chef carries a counter. */
  predicate AllCounted(s: seq<Chef>) {
    forall k :: 0 <= k < |s| ==> s[k].ordersTaken.Some?
  }

  /** No two counters differ by more than one. */
  predicate Balanced(s: seq<Chef>) {
    forall i, j :: 0 <= i < |s| && 0 <= j < |s| ==> Load(s[i]) <= Load(s[j]) + 1
  }

  /**
   * Least-loaded assignment keeps counted chefs balanced: charging the first chef
   * under the sort never opens a gap of two.
   */
  lemma PickKeepsBalance(s: seq<Chef>, i: int, now: Time)
    requires AllCounted(s) && Balanced(s) && Lightest(s, i)
    ensures AllCounted(s[i := Charge(s[i], now)]) && Balanced(s[i := Charge(s[i], now)])
  {
    var t := s[i := Charge(s[i], now)];
    forall a, b | 0 <= a < |t| && 0 <= b < |t| ensures Load(t[a]) <= Load(t[b]) + 1 {
      assert NoHeavier(s[i], s[b]) && NoHeavier(s[i], s[a]);
    }
  }

  /**
   * A chef stored without a counter breaks that balance: it sorts first, and its
   * counter jumps from missing straight to 1.
   */
  lemma MissingCounterUnbalances()
    ensures var s := [Chef(1, "a", None, None), Chef(2, "b", None, None), Chef(3, "c", Some(0), None)];
            Balanced(s) && Lightest(s, 0) && !Balanced(s[0 := Charge(s[0], 0)])
  {
    var s := [Chef(1, "a", None, None), Chef(2, "b", None, None), Chef(3, "c", Some(0), None)];
    assert Load(s[0 := Charge(s[0], 0)][0]) == 1 && Load(s[0 := Charge(s[0], 0)][1]) == -1;
  }

  /** `{ $set: { ordersTaken: 0 } }` on a chef with no counter. */
  function Counted(c: Chef): Chef {
    if c.ordersTaken.None? then c.(ordersTaken := Some(0)) else c
  }

  /** The collection after `updateMany({ ordersTaken: { $exists: false } }, ...)`. */
  function FixedAll(s: seq<Chef>): (r: seq<Chef>)
    ensures |r| == |s|
    ensures forall k :: 0 <= k < |s| ==> r[k] == Counted(s[k])
  {
    if s == [] then [] else [Counted(s[0])] + FixedAll(s[1..])
  }

  /** The chefs the repair touches (its `modifiedCount`). */
  function CountMissing(s: seq<Chef>): (n: nat)
    ensures n <= |s|
  {
    if s == [] then 0 else (if s[0].ordersTaken.None? then 1 else 0) + CountMissing(s[1..])
  }

  /** After the repair every chef is counted, so a second repair touches none and changes nothing. */
  lemma {:induction false} FixIdempotent(s: seq<Chef>)
    ensures AllCounted(FixedAll(s))
    ensures CountMissing(FixedAll(s)) == 0
    ensures FixedAll(FixedAll(s)) == FixedAll(s)
  {
    if s != [] {
      FixIdempotent(s[1..]);
      assert FixedAll(s)[1..] == FixedAll(s[1..]);
    }
  }

  /** The repair keeps the orders counted over all chefs. */
  lemma {:induction false} FixKeepsTotal(s: seq<Chef>)
    ensures TotalTaken(FixedAll(s)) == TotalTaken(s)
  {
    if s != [] {
      FixKeepsTotal(s[1..]);
      assert FixedAll(s)[1..] == FixedAll(s[1..]);
    }
  }

  /** The repair changes nothing when every chef is already counted. */
  lemma {:induction false} FixCounted(s: seq<Chef>)
    requires AllCounted(s)
    ensures FixedAll(s) == s && CountMissing(s) == 0
  {
    if s != [] {
      FixCounted(s[1..]);
    }
  }

  /** The `chefs` collection. */
  class Chefs {
    var rows: seq<Chef>

    ghost predicate Valid()
      reads this
    {
      UniqueIds(rows)
    }

    constructor ()
      ensures Valid() && rows == []
    {
      rows := [];
    }

    /**
     * The chef step of `createOrder`: one atomic `findOneAndUpdate` on the first chef
     * under `{ ordersTaken: 1, _id: 1 }`, returning the chef as updated.
     */
    method Assign(now: Time) returns (got: Option<Chef>)
      requires Valid()
      modifies this
      ensures Valid()
      ensures Pick(old(rows), rows, now, got)
      ensures got.Some? ==> TotalTaken(rows) == TotalTaken(old(rows)) + 1
    {
      var found := LeastLoaded(rows);
      if found.None? {
        return None;
      }
      var i := found.value;
      ChargeAddsOne(rows, i, now);
      rows := rows[i := Charge(rows[i], now)];
      got := Some(rows[i]);
    }

    /**
     * `fixChefsMissingOrdersTaken`: set the counter to 0 on every chef without one,
     * report how many changed, and list the chefs.
     */
    method FixMissingOrdersTaken() returns (fixed: nat, listing: seq<Chef>)
      requires Valid()
      modifies this
      ensures Valid()
      ensures rows == FixedAll(old(rows)) && fixed == CountMissing(old(rows)) && listing == rows
    {
      fixed := CountMissing(rows);
      rows := FixedAll(rows);
      listing := rows;
    }
  }
}
