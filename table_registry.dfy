/**
 * The table collection and the operations of the table controller: availability,
 * the sorted listing, creation with a 30-table cap, deletion with renumbering,
 * reservation, release and the 40-minute auto-release sweep; and the best-fit
 * reservation step that order creation performs on this collection.
 */
module TableRegistry {
  import opened Wrappers
  import opened Models

  /** `createTable` refuses to go beyond this many tables. */
  const MaxTables: nat := 30

  /** A reservation older than this is released by the sweep. */
  const AutoReleaseMs: int := 40 * MinuteMs

  /* ----------------------------------------------------------------------
     Collection-wide facts
     ---------------------------------------------------------------------- */

  ghost predicate UniqueIds(s: seq<Table>) {
    forall i, j :: 0 <= i < j < |s| ==> s[i].id != s[j].id
  }

  /** The unique index on `number`. */
  ghost predicate UniqueNumbers(s: seq<Table>) {
    forall i, j :: 0 <= i < j < |s| ==> s[i].number != s[j].number
  }

  /** What every state of the collection satisfies. */
  ghost predicate Registry(s: seq<Table>) {
    && UniqueIds(s)
    && UniqueNumbers(s)
    && (forall k :: 0 <= k < |s| ==> ValidChairs(s[k].chairs) && ReservationConsistent(s[k]))
  }

  /** `Table.findById`: the position of the table with this id, if any. */
  function Find(s: seq<Table>, id: nat): (r: Option<nat>)
    ensures r.Some? ==> r.value < |s| && s[r.value].id == id
    ensures r.Some? ==> forall k :: 0 <= k < r.value ==> s[k].id != id
    ensures r.None? ==> forall k :: 0 <= k < |s| ==> s[k].id != id
  {
    if s == [] then None
    else if s[0].id == id then Some(0)
    else match Find(s[1..], id)
         case None => None
         case Some(k) => Some(k + 1)
  }

  /** Some table carries `number`. */
  predicate NumberTaken(s: seq<Table>, number: int) {
    exists k :: 0 <= k < |s| && s[k].number == number
  }

  /* ----------------------------------------------------------------------
     Counting (getTableAvailability)
     ---------------------------------------------------------------------- */

  function CountReserved(s: seq<Table>): (n: nat)
    ensures n <= |s|
  {
    if s == [] then 0 else (if s[0].isReserved then 1 else 0) + CountReserved(s[1..])
  }

  function CountFree(s: seq<Table>): (n: nat)
    ensures n <= |s|
  {
    if s == [] then 0 else (if s[0].isReserved then 0 else 1) + CountFree(s[1..])
  }

  /** Every table is either reserved or free. */
  lemma {:induction false} FreePlusReserved(s: seq<Table>)
    ensures CountFree(s) + CountReserved(s) == |s|
  {
    if s != [] {
      FreePlusReserved(s[1..]);
    }
  }

  /** The figures `getTableAvailability` reports. */
  datatype Counts = Counts(total: nat, reserved: nat, free: int)

  /* ----------------------------------------------------------------------
     Sorting (getTables, and the re-read in deleteTable)
     ---------------------------------------------------------------------- */

  ghost predicate SortedByNumber(s: seq<Table>) {
    forall i, j :: 0 <= i < j < |s| ==> s[i].number <= s[j].number
  }

  /** Insert `t` into a list sorted by number, before the first table numbered at least as high. */
  function InsertByNumber(t: Table, s: seq<Table>): (r: seq<Table>)
    ensures |r| == |s| + 1
    ensures multiset(r) == multiset(s) + multiset{t}
  {
    if s == [] || t.number <= s[0].number then [t] + s
    else
      assert s == [s[0]] + s[1..];
      [s[0]] + InsertByNumber(t, s[1..])
  }

  /** `a` comes before `b`: below it, and strictly so when `strict` holds. */
  predicate Before(a: int, b: int, strict: bool) {
    if strict then a < b else a <= b
  }

  /** Ascending, and strictly so when `strict` holds. */
  ghost predicate Ascending(s: seq<Table>, strict: bool) {
    forall i, j :: 0 <= i < j < |s| ==> Before(s[i].number, s[j].number, strict)
  }

  /** A bound below every number, and below the new one, stays below every number after insertion. */
  lemma {:induction false} InsertAbove(t: Table, s: seq<Table>, b: int, strict: bool)
    requires forall k :: 0 <= k < |s| ==> Before(b, s[k].number, strict)
    requires Before(b, t.number, strict)
    ensures forall k :: 0 <= k < |InsertByNumber(t, s)| ==> Before(b, InsertByNumber(t, s)[k].number, strict)
  {
    if s != [] && t.number > s[0].number {
      InsertAbove(t, s[1..], b, strict);
      var r := InsertByNumber(t, s);
      assert forall k :: 1 <= k < |r| ==> r[k] == InsertByNumber(t, s[1..])[k - 1];
    }
  }

  /** Insertion keeps a list ascending; strictly, when the new number is not yet in it. */
  lemma {:induction false} InsertAscending(t: Table, s: seq<Table>, strict: bool)
    requires Ascending(s, strict)
    requires strict ==> forall k :: 0 <= k < |s| ==> s[k].number != t.number
    ensures Ascending(InsertByNumber(t, s), strict)
  {
    if s != [] && t.number > s[0].number {
      var tail := s[1..];
      InsertAscending(t, tail, strict);
      assert forall m :: 0 <= m < |tail| ==> Before(s[0].number, tail[m].number, strict) by {
        assert forall m :: 0 <= m < |tail| ==> tail[m] == s[m + 1];
      }
      InsertAbove(t, tail, s[0].number, strict);
      var rest := InsertByNumber(t, tail);
      var r := [s[0]] + rest;
      forall i, j | 0 <= i < j < |r| ensures Before(r[i].number, r[j].number, strict) {
        assert r[j] == rest[j - 1];
        if i > 0 { assert r[i] == rest[i - 1]; }
      }
    }
  }

  /** `sort({ number: 1 })`: the same tables, in ascending order of number. */
  function SortByNumber(s: seq<Table>): (r: seq<Table>)
    ensures |r| == |s|
    ensures multiset(r) == multiset(s)
  {
    if s == [] then []
    else
      assert s == [s[0]] + s[1..];
      InsertByNumber(s[0], SortByNumber(s[1..]))
  }

  /**
   * The listing is ascending by number, and strictly ascending when numbers are
   * unique, as the unique index on `number` guarantees.
   */
  lemma {:induction false} SortAscending(s: seq<Table>, strict: bool)
    requires strict ==> UniqueNumbers(s)
    ensures Ascending(SortByNumber(s), strict)
  {
    if s != [] {
      var tail := s[1..];
      SortAscending(tail, strict);
      var sorted := SortByNumber(tail);
      if strict {
        forall k | 0 <= k < |sorted| ensures sorted[k].number != s[0].number {
          assert sorted[k] in multiset(tail);
          var b :| 0 <= b < |tail| && tail[b] == sorted[k];
          assert s[b + 1] == sorted[k];
        }
      }
      InsertAscending(s[0], sorted, strict);
    }
  }

  /* ----------------------------------------------------------------------
     Release and the auto-release sweep
     ---------------------------------------------------------------------- */

  /** A table with its reservation cleared. */
  function Released(t: Table): Table {
    t.(isReserved := false, reservedAt := None)
  }

  /** A table reserved at `now`. */
  function Reserved(t: Table, now: Time): Table {
    t.(isReserved := true, reservedAt := Some(now))
  }

  /** `updateMany({ _id: { $in: ids } }, { isReserved: false, reservedAt: null })`. */
  function ReleaseIds(s: seq<Table>, ids: set<nat>): (r: seq<Table>)
    ensures |r| == |s|
    ensures forall k :: 0 <= k < |s| ==> r[k] == if s[k].id in ids then Released(s[k]) else s[k]
  {
    if s == [] then []
    else [if s[0].id in ids then Released(s[0]) else s[0]] + ReleaseIds(s[1..], ids)
  }

  /** With unique ids, releasing one id releases exactly the table at its position. */
  lemma ReleaseOne(s: seq<Table>, k: int)
    requires UniqueIds(s) && 0 <= k < |s|
    ensures ReleaseIds(s, {s[k].id}) == s[k := Released(s[k])]
  {
  }

  /** Releasing a set of tables a second time changes nothing. */
  lemma {:induction false} ReleaseIdsIdempotent(s: seq<Table>, ids: set<nat>)
    ensures ReleaseIds(ReleaseIds(s, ids), ids) == ReleaseIds(s, ids)
  {
    if s != [] {
      ReleaseIdsIdempotent(s[1..], ids);
      assert ReleaseIds(s, ids)[1..] == ReleaseIds(s[1..], ids);
    }
  }

  /** Releasing no table changes nothing. */
  lemma {:induction false} ReleaseNothing(s: seq<Table>)
    ensures ReleaseIds(s, {}) == s
  {
    if s != [] {
      ReleaseNothing(s[1..]);
    }
  }

  /** A reservation the sweep at `now` releases: reserved at or before `now - 40 min`. */
  predicate Stale(t: Table, now: Time) {
    t.isReserved && t.reservedAt.Some? && t.reservedAt.value <= now - AutoReleaseMs
  }

  /** The collection after the 40-minute sweep at `now`. */
  function AutoReleased(s: seq<Table>, now: Time): (r: seq<Table>)
    ensures |r| == |s|
    ensures forall k :: 0 <= k < |s| ==> r[k] == if Stale(s[k], now) then Released(s[k]) else s[k]
  {
    if s == [] then []
    else [if Stale(s[0], now) then Released(s[0]) else s[0]] + AutoReleased(s[1..], now)
  }

  /** A second sweep at the same `now` finds nothing left to release. */
  lemma {:induction false} AutoReleaseIdempotent(s: seq<Table>, now: Time)
    ensures AutoReleased(AutoReleased(s, now), now) == AutoReleased(s, now)
  {
    if s != [] {
      AutoReleaseIdempotent(s[1..], now);
      assert AutoReleased(s, now)[1..] == AutoReleased(s[1..], now);
    }
  }

  /** After the sweep, no reservation is older than 40 minutes; recent ones are kept. */
  lemma AutoReleaseExact(s: seq<Table>, now: Time)
    ensures forall k :: 0 <= k < |s| ==> !Stale(AutoReleased(s, now)[k], now)
    ensures forall k :: 0 <= k < |s| ==>
              (AutoReleased(s, now)[k].isReserved <==> s[k].isReserved && !Stale(s[k], now))
  {
  }

  /** Of a table reserved 41 minutes ago and one reserved 5 minutes ago, the sweep frees only the first. */
  lemma AutoReleaseExample(now: Time)
    ensures var s := [Table(1, 1, 4, true, Some(now - 41 * MinuteMs)), Table(2, 2, 4, true, Some(now - 5 * MinuteMs))];
            AutoReleased(s, now) == [Released(s[0]), s[1]]
  {
  }

  /* ----------------------------------------------------------------------
     Best-fit reservation (the table step of createOrder)
     ---------------------------------------------------------------------- */

  /** The query `{ chairs: { $gte: partySize }, isReserved: false }`. */
  predicate FreeFor(t: Table, partySize: int) {
    !t.isReserved && t.chairs >= partySize
  }

  predicate AnyFreeFor(s: seq<Table>, partySize: int) {
    exists j :: 0 <= j < |s| && FreeFor(s[j], partySize)
  }

  /** Table `i` matches the query and has the fewest chairs among those that do. */
  predicate BestFit(s: seq<Table>, partySize: int, i: int) {
    && 0 <= i < |s| && FreeFor(s[i], partySize)
    && forall j :: 0 <= j < |s| && FreeFor(s[j], partySize) ==> s[i].chairs <= s[j].chairs
  }

  /** Whenever some table matches, a best fit exists. */
  lemma {:induction false} BestFitExists(s: seq<Table>, partySize: int)
    requires AnyFreeFor(s, partySize)
    ensures exists i :: BestFit(s, partySize, i)
  {
    var tail := s[1..];
    forall j | 0 < j < |s| ensures s[j] == tail[j - 1] { }
    if !AnyFreeFor(tail, partySize) {
      forall j | 0 < j < |s| ensures !FreeFor(s[j], partySize) {
        assert s[j] == tail[j - 1];
      }
      assert BestFit(s, partySize, 0);
    } else {
      BestFitExists(tail, partySize);
      var i :| BestFit(tail, partySize, i);
      if FreeFor(s[0], partySize) && s[0].chairs < tail[i].chairs {
        assert BestFit(s, partySize, 0);
      } else {
        assert BestFit(s, partySize, i + 1);
      }
    }
  }

  /** With free tables of 2, 4 and 6 chairs, a party of 3 gets the 4-chair table and no other. */
  lemma BestFitSmallest()
    ensures var s := [Table(1, 1, 2, false, None), Table(2, 2, 4, false, None), Table(3, 3, 6, false, None)];
            BestFit(s, 3, 1) && forall i :: BestFit(s, 3, i) ==> i == 1
  {
  }

  /** With only the 6-chair table free, a party of 2 gets it rather than nothing. */
  lemma BestFitLargerWhenOnlyOne(now: Time)
    ensures var s := [Table(1, 1, 2, true, Some(now)), Table(2, 2, 4, true, Some(now)), Table(3, 3, 6, false, None)];
            AnyFreeFor(s, 2) && forall i :: BestFit(s, 2, i) <==> i == 2
  {
    var s := [Table(1, 1, 2, true, Some(now)), Table(2, 2, 4, true, Some(now)), Table(3, 3, 6, false, None)];
    assert FreeFor(s[2], 2);
  }

  /**
   * One `findOneAndUpdate` with the best-fit query: a best-fitting free table becomes
   * reserved at `now` and is returned, or, when none matches, nothing changes.
   */
  ghost predicate Allocation(before: seq<Table>, after: seq<Table>, partySize: int, now: Time, got: Option<Table>) {
    if AnyFreeFor(before, partySize) then
      exists i :: BestFit(before, partySize, i) && after == before[i := Reserved(before[i], now)] && got == Some(after[i])
    else
      after == before && got == None
  }

  /** The number of tables a party of `partySize` could be seated at. */
  function CountFreeFor(s: seq<Table>, partySize: int): (n: nat)
    ensures n <= |s|
    ensures n == 0 <==> !AnyFreeFor(s, partySize)
  {
    if s == [] then 0
    else
      var n := CountFreeFor(s[1..], partySize);
      assert AnyFreeFor(s, partySize) <==> FreeFor(s[0], partySize) || AnyFreeFor(s[1..], partySize) by {
        if AnyFreeFor(s, partySize) {
          var j :| 0 <= j < |s| && FreeFor(s[j], partySize);
          if j > 0 { assert FreeFor(s[1..][j - 1], partySize); }
        }
        if AnyFreeFor(s[1..], partySize) {
          var j :| 0 <= j < |s[1..]| && FreeFor(s[1..][j], partySize);
          assert FreeFor(s[j + 1], partySize);
        }
      }
      (if FreeFor(s[0], partySize) then 1 else 0) + n
  }

  /** Reserving a matching table removes exactly that table from the matches, for any party size. */
  lemma {:induction false} ReserveCount(s: seq<Table>, i: int, p: int, q: int, now: Time)
    requires 0 <= i < |s| && FreeFor(s[i], p)
    ensures CountFreeFor(s[i := Reserved(s[i], now)], q)
              == CountFreeFor(s, q) - (if FreeFor(s[i], q) then 1 else 0)
  {
    if i > 0 {
      ReserveCount(s[1..], i - 1, p, q, now);
      assert s[i := Reserved(s[i], now)][1..] == s[1..][i - 1 := Reserved(s[i], now)];
    } else {
      assert s[i := Reserved(s[i], now)][1..] == s[1..];
    }
  }

  /** `got`, when it is a table, is one that was free for the party in `s`. */
  ghost predicate HandedOut(s: seq<Table>, got: Option<Table>, partySize: int) {
    got.Some? ==> exists k :: 0 <= k < |s| && s[k].id == got.value.id && FreeFor(s[k], partySize)
  }

  /** What one allocation step does to the collection, as the run below needs it. */
  /** `s1` has the tables of `s0` in place, and is free for the party only where `s0` was. */
  ghost predicate Shrinks(s0: seq<Table>, s1: seq<Table>, partySize: int) {
    |s1| == |s0| && forall k :: 0 <= k < |s0| ==> s1[k].id == s0[k].id && (FreeFor(s1[k], partySize) ==> FreeFor(s0[k], partySize))
  }

  /** `got`, when it is a table, was free for the party in `s0` and is no longer in `s1`. */
  ghost predicate TookFrom(s0: seq<Table>, s1: seq<Table>, got: Option<Table>, partySize: int) {
    got.Some? ==> exists i :: 0 <= i < |s0| && i < |s1| && s0[i].id == got.value.id && FreeFor(s0[i], partySize)
                              && !FreeFor(s1[i], partySize)
  }

  lemma AllocationStep(s0: seq<Table>, s1: seq<Table>, partySize: int, now: Time, got: Option<Table>)
    requires UniqueIds(s0)
    requires Allocation(s0, s1, partySize, now, got)
    ensures UniqueIds(s1) && Shrinks(s0, s1, partySize) && TookFrom(s0, s1, got, partySize)
    ensures got.Some? <==> CountFreeFor(s0, partySize) > 0
    ensures CountFreeFor(s1, partySize) == CountFreeFor(s0, partySize) - (if got.Some? then 1 else 0)
  {
    if AnyFreeFor(s0, partySize) {
      var i :| BestFit(s0, partySize, i) && s1 == s0[i := Reserved(s0[i], now)] && got == Some(s1[i]);
      ReserveCount(s0, i, partySize, partySize, now);
    }
  }

  /** No table id is handed out twice in `got`. */
  ghost predicate Distinct(got: seq<Option<Table>>) {
    forall a, b :: 0 <= a < b < |got| && got[a].Some? && got[b].Some? ==> got[a].value.id != got[b].value.id
  }

  /** The steps after the first form a run from the second state. */
  lemma RunLater(states: seq<seq<Table>>, got: seq<Option<Table>>, partySize: int, now: Time)
    requires |states| == |got| + 1 && got != []
    requires forall k :: 0 <= k < |got| ==> Allocation(states[k], states[k + 1], partySize, now, got[k])
    ensures forall k :: 0 <= k < |got[1..]| ==> Allocation(states[1..][k], states[1..][k + 1], partySize, now, got[1..][k])
  {
    forall k | 0 <= k < |got[1..]| ensures Allocation(states[1..][k], states[1..][k + 1], partySize, now, got[1..][k]) {
      assert states[1..][k] == states[k + 1] && states[1..][k + 1] == states[k + 2] && got[1..][k] == got[k + 1];
    }
  }

  /** A first step that only takes a table away, followed by a good run, is a good run. */
  lemma RunCombine(s0: seq<Table>, s1: seq<Table>, g: Option<Table>, later: seq<Option<Table>>, partySize: int)
    requires UniqueIds(s0) && Shrinks(s0, s1, partySize) && TookFrom(s0, s1, g, partySize)
    requires Distinct(later)
    requires forall a :: 0 <= a < |later| ==> HandedOut(s1, later[a], partySize)
    ensures Distinct([g] + later)
    ensures forall a :: 0 <= a < |[g] + later| ==> HandedOut(s0, ([g] + later)[a], partySize)
  {
    var got := [g] + later;
    forall b | 0 <= b < |later| ensures HandedOut(s0, later[b], partySize) && (g.Some? && later[b].Some? ==> g.value.id != later[b].value.id) {
      if later[b].Some? {
        var k :| 0 <= k < |s1| && s1[k].id == later[b].value.id && FreeFor(s1[k], partySize);
        assert s0[k].id == s1[k].id && FreeFor(s0[k], partySize);
        if g.Some? {
          var i :| 0 <= i < |s0| && s0[i].id == g.value.id && FreeFor(s0[i], partySize) && !FreeFor(s1[i], partySize);
          assert k != i;
        }
      }
    }
    forall a | 0 <= a < |got| ensures HandedOut(s0, got[a], partySize) {
      if a > 0 { assert got[a] == later[a - 1]; }
    }
    forall a, b | 0 <= a < b < |got| && got[a].Some? && got[b].Some? ensures got[a].value.id != got[b].value.id {
      assert got[b] == later[b - 1];
      if a > 0 { assert got[a] == later[a - 1]; }
    }
  }

  /**
   * Successive allocations for parties of one size never hand out a table twice, and
   * exactly `min(N, matching tables)` of `N` requests succeed.
   */
  lemma {:induction false} AllocationRun(states: seq<seq<Table>>, got: seq<Option<Table>>, partySize: int, now: Time)
    requires |states| == |got| + 1
    requires UniqueIds(states[0])
    requires forall k :: 0 <= k < |got| ==> Allocation(states[k], states[k + 1], partySize, now, got[k])
    ensures Successes(got) == if |got| < CountFreeFor(states[0], partySize) then |got| else CountFreeFor(states[0], partySize)
    ensures Distinct(got)
    ensures forall a :: 0 <= a < |got| ==> HandedOut(states[0], got[a], partySize)
    decreases |got|
  {
    if got != [] {
      var s0, s1 := states[0], states[1];
      AllocationStep(s0, s1, partySize, now, got[0]);
      RunLater(states, got, partySize, now);
      AllocationRun(states[1..], got[1..], partySize, now);
      RunCombine(s0, s1, got[0], got[1..], partySize);
      assert got == [got[0]] + got[1..];
      MinStep(|got[1..]|, CountFreeFor(s0, partySize), got[0].Some?, Successes(got[1..]));
    }
  }

  /** One more request succeeds exactly when some table matched: `min` grows by one on both sides. */
  lemma MinStep(later: nat, free: nat, hit: bool, successes: nat)
    requires hit <==> free > 0
    requires successes == if later < free - (if hit then 1 else 0) then later else free - (if hit then 1 else 0)
    ensures (if hit then 1 else 0) + successes == if later + 1 < free then later + 1 else free
  {
  }

  /** How many allocation attempts returned a table. */
  function Successes(got: seq<Option<Table>>): (n: nat)
    ensures n <= |got|
  {
    if got == [] then 0 else (if got[0].Some? then 1 else 0) + Successes(got[1..])
  }

  /* ----------------------------------------------------------------------
     Deletion and renumbering
     ---------------------------------------------------------------------- */

  /** The collection with the table at position `k` removed. */
  function Without(s: seq<Table>, k: nat): (r: seq<Table>)
    requires k < |s|
    ensures |r| == |s| - 1
    ensures forall j :: 0 <= j < |r| ==> r[j] == if j < k then s[j] else s[j + 1]
  {
    s[..k] + s[k + 1..]
  }

  /** The same tables at the same positions; only their numbers may differ. */
  ghost predicate SameButNumbers(after: seq<Table>, before: seq<Table>) {
    |after| == |before| && forall k :: 0 <= k < |before| ==> after[k] == before[k].(number := after[k].number)
  }

  /**
   * The tables of `before`, taken in ascending order of their old number, carry the
   * numbers 1, 2, ..., n: the table at sorted position `q` is numbered `q + 1`.
   */
  ghost predicate Renumbered(after: seq<Table>, before: seq<Table>) {
    && SameButNumbers(after, before)
    && var order := SortByNumber(before);
       forall q :: 0 <= q < |order| ==>
         Find(after, order[q].id).Some? && after[Find(after, order[q].id).value] == order[q].(number := q + 1)
  }

  /** Deleting table 2 of tables numbered 1, 2 and 3 leaves tables numbered 1 and 2. */
  lemma RenumberExample(after: seq<Table>)
    requires Renumbered(after, [Table(1, 1, 4, false, None), Table(3, 3, 4, false, None)])
    ensures after == [Table(1, 1, 4, false, None), Table(3, 2, 4, false, None)]
  {
    var rest := [Table(1, 1, 4, false, None), Table(3, 3, 4, false, None)];
    assert SortByNumber(rest) == rest;
    assert Find(after, 1) == Some(0) && Find(after, 3) == Some(1);
  }

  /** The listing of a collection with unique numbers is strictly ascending. */
  lemma ListingAscending(s: seq<Table>)
    ensures UniqueNumbers(s) ==> Ascending(SortByNumber(s), true)
  {
    if UniqueNumbers(s) {
      SortAscending(s, true);
    }
  }

  /** Tables with the same ids at the same positions are found at the same place. */
  lemma {:induction false} FindSameIds(a: seq<Table>, b: seq<Table>, id: nat)
    requires |a| == |b| && forall k :: 0 <= k < |a| ==> a[k].id == b[k].id
    ensures Find(a, id) == Find(b, id)
  {
    if a != [] {
      FindSameIds(a[1..], b[1..], id);
    }
  }

  /** With unique ids, a table of the collection is found at its own position. */
  lemma FindUnique(s: seq<Table>, k: int)
    requires UniqueIds(s) && 0 <= k < |s|
    ensures Find(s, s[k].id) == Some(k)
  {
  }

  /** Strictly ascending numbers that start at 1 or above: position `q` holds at least `q + 1`. */
  lemma {:induction false} AscendingFromOne(s: seq<Table>, q: int)
    requires Ascending(s, true) && 0 <= q < |s| && s[0].number >= 1
    ensures s[q].number >= q + 1
  {
    if q > 0 {
      AscendingFromOne(s, q - 1);
    }
  }

  /* ----------------------------------------------------------------------
     The collection
     ---------------------------------------------------------------------- */

  datatype TableError = TooManyTables | MissingFields | DuplicateNumber | NotBoolean | TableIsReserved

  /** What a table route answers: the table, a deletion, or an error status. */
  datatype TableResult = Done(table: Table) | Deleted | BadRequest(reason: TableError) | NotFound | ServerError

  /** The `tables` collection. */
  class Tables {
    var rows: seq<Table>

    ghost predicate Valid()
      reads this
    {
      Registry(rows)
    }

    constructor ()
      ensures Valid() && rows == []
    {
      rows := [];
    }

    /** `getTableAvailability`: free is total minus reserved, which is the number of free tables. */
    function Availability(): (a: Counts)
      reads this
      ensures a.total == |rows| && a.reserved == CountReserved(rows)
      ensures a.free == CountFree(rows)
      ensures a.free >= 0 && a.free + a.reserved == a.total
    {
      FreePlusReserved(rows);
      Counts(|rows|, CountReserved(rows), |rows| - CountReserved(rows))
    }

    /** `getTables`: every table, in ascending order of number. */
    function Listing(): (r: seq<Table>)
      reads this
      ensures multiset(r) == multiset(rows)
      ensures Valid() ==> Ascending(r, true)
    {
      ListingAscending(rows);
      SortByNumber(rows)
    }

    /**
     * `createTable`: refuse when 30 tables exist, when a field is missing, or when the
     * number is taken; a document the schema rejects (chairs not 2, 4 or 6) is a
     * server error.  Otherwise one free table is added.
     */
    method Create(number: Option<int>, chairs: Option<int>, id: nat) returns (r: TableResult)
      requires Valid()
      requires Find(rows, id).None?
      modifies this
      ensures Valid()
      ensures |old(rows)| >= MaxTables ==> r == BadRequest(TooManyTables) && rows == old(rows)
      ensures |old(rows)| < MaxTables && (number.None? || chairs.None?) ==> r == BadRequest(MissingFields) && rows == old(rows)
      ensures |old(rows)| < MaxTables && number.Some? && chairs.Some? && NumberTaken(old(rows), number.value) ==>
                r == BadRequest(DuplicateNumber) && rows == old(rows)
      ensures |old(rows)| < MaxTables && number.Some? && chairs.Some? && !NumberTaken(old(rows), number.value) ==>
                if ValidChairs(chairs.value) then
                  r == Done(Table(id, number.value, chairs.value, false, None)) && rows == old(rows) + [r.table]
                else
                  r == ServerError && rows == old(rows)
      ensures |rows| <= MaxTables || rows == old(rows)
    {
      if |rows| >= MaxTables {
        return BadRequest(TooManyTables);
      }
      if number.None? || chairs.None? {
        return BadRequest(MissingFields);
      }
      if NumberTaken(rows, number.value) {
        return BadRequest(DuplicateNumber);
      }
      var t := NewTable(id, number, chairs, Some(false), None);
      if t.None? {
        return ServerError;
      }
      rows := rows + [t.value];
      r := Done(t.value);
    }

    /**
     * `deleteTable`: an unknown id is 404 and a reserved table is refused, both with no
     * change.  Otherwise the table is removed and the rest, sorted by number, are
     * renumbered 1..n, saving only those whose number changes.  A save that would
     * duplicate a number breaks the unique index: the loop stops with a server error,
     * numbers still unique.  When every remaining number is at least 1 that cannot happen.
     */
    method Delete(id: nat) returns (r: TableResult)
      requires Valid()
      modifies this
      ensures Valid()
      ensures Find(old(rows), id).None? ==> r == NotFound && rows == old(rows)
      ensures Find(old(rows), id).Some? && old(rows)[Find(old(rows), id).value].isReserved ==>
                r == BadRequest(TableIsReserved) && rows == old(rows)
      ensures Find(old(rows), id).Some? && !old(rows)[Find(old(rows), id).value].isReserved ==>
                var rest := Without(old(rows), Find(old(rows), id).value);
                && (r == Deleted || r == ServerError)
                && (r == Deleted ==> Renumbered(rows, rest))
                && (r == ServerError ==> SameButNumbers(rows, rest))
                && ((forall k :: 0 <= k < |rest| ==> rest[k].number >= 1) ==> r == Deleted)
    {
      var found := Find(rows, id);
      if found.None? {
        return NotFound;
      }
      if rows[found.value].isReserved {
        return BadRequest(TableIsReserved);
      }
      rows := Without(rows, found.value);
      var ok := Renumber();
      r := if ok then Deleted else ServerError;
    }

    /**
     * The renumbering loop of `deleteTable`: walk the tables in ascending order of
     * number and give the one at position `i` the number `i + 1`, saving it only when
     * that changes its number.  A save fails when another table already holds the
     * number (the unique index); the walk then stops and `ok` is false.
     */
    method Renumber() returns (ok: bool)
      requires Valid()
      modifies this
      ensures Valid()
      ensures ok ==> Renumbered(rows, old(rows))
      ensures !ok ==> SameButNumbers(rows, old(rows))
      ensures (forall k :: 0 <= k < |old(rows)| ==> old(rows)[k].number >= 1) ==> ok
    {
      ghost var rest := rows;
      var order := SortByNumber(rows);
      ghost var positive := forall k :: 0 <= k < |rest| ==> rest[k].number >= 1;
      ghost var at, back := Positions(rest, order, positive);
      var tables := rows;
      var i := 0;
      while i < |order|
        invariant Progress(tables, rest, order, at, i)
      {
        if order[i].number != i + 1 {
          if NumberTaken(tables, i + 1) {
            NoClash(rest, order, at, back, tables, i, positive);
            SameButNumbersRegistry(tables, rest);
            rows := tables;
            return false;
          }
          RenumberStep(tables, rest, order, at, i);
          var j := Find(tables, order[i].id).value;
          tables := tables[j := tables[j].(number := i + 1)];
        } else {
          ProgressSkip(tables, rest, order, at, i);
        }
        i := i + 1;
      }
      RenumberDone(tables, rest, order, at);
      SameButNumbersRegistry(tables, rest);
      rows := tables;
      ok := true;
    }

    /**
     * `updateTableReservation`: a flag that is not a boolean is refused, an unknown id
     * is 404; otherwise the table takes the flag, with `reservedAt` the current time
     * when reserving and cleared when releasing.
     */
    method UpdateReservation(id: nat, isReserved: Option<bool>, now: Time) returns (r: TableResult)
      requires Valid()
      modifies this
      ensures Valid()
      ensures isReserved.None? ==> r == BadRequest(NotBoolean) && rows == old(rows)
      ensures isReserved.Some? && Find(old(rows), id).None? ==> r == NotFound && rows == old(rows)
      ensures isReserved.Some? && Find(old(rows), id).Some? ==>
                var k := Find(old(rows), id).value;
                var t := if isReserved.value then Reserved(old(rows)[k], now) else Released(old(rows)[k]);
                rows == old(rows)[k := t] && r == Done(t)
    {
      if isReserved.None? {
        return BadRequest(NotBoolean);
      }
      var found := Find(rows, id);
      if found.None? {
        return NotFound;
      }
      var k := found.value;
      var t := if isReserved.value then Reserved(rows[k], now) else Released(rows[k]);
      rows := rows[k := t];
      r := Done(t);
    }

    /** `releaseTable`: an unknown id is 404; otherwise that one table is released. */
    method Release(id: nat) returns (r: TableResult)
      requires Valid()
      modifies this
      ensures Valid()
      ensures Find(old(rows), id).None? ==> r == NotFound && rows == old(rows)
      ensures Find(old(rows), id).Some? ==>
                rows == ReleaseIds(old(rows), {id}) && r == Done(Released(old(rows)[Find(old(rows), id).value]))
    {
      var found := Find(rows, id);
      if found.None? {
        return NotFound;
      }
      ReleaseOne(rows, found.value);
      var t := Released(rows[found.value]);
      rows := rows[found.value := t];
      r := Done(t);
    }

    /** `updateMany({ _id: { $in: ids } }, { isReserved: false, reservedAt: null })`; unknown ids match nothing. */
    method ReleaseMany(ids: set<nat>)
      requires Valid()
      modifies this
      ensures Valid()
      ensures rows == ReleaseIds(old(rows), ids)
    {
      rows := ReleaseIds(rows, ids);
    }

    /**
     * `autoReleaseTables`, run at `now`: every table reserved at least 40 minutes ago is
     * released and saved, one at a time; every other table is left as it is.
     */
    method AutoRelease(now: Time)
      requires Valid()
      modifies this
      ensures Valid()
      ensures rows == AutoReleased(old(rows), now)
    {
      var i := 0;
      while i < |rows|
        invariant 0 <= i <= |rows| == |old(rows)|
        invariant Registry(rows)
        invariant forall k :: 0 <= k < i ==> rows[k] == AutoReleased(old(rows), now)[k]
        invariant forall k :: i <= k < |rows| ==> rows[k] == old(rows)[k]
      {
        if Stale(rows[i], now) {
          rows := rows[i := Released(rows[i])];
        }
        i := i + 1;
      }
    }

    /**
     * The table step of `createOrder`: one atomic `findOneAndUpdate` that reserves a free
     * table with at least `partySize` chairs, fewest chairs first.  `None` when no table
     * matches.
     */
    method ReserveBestFit(partySize: int, now: Time) returns (got: Option<Table>)
      requires Valid()
      modifies this
      ensures Valid()
      ensures Allocation(old(rows), rows, partySize, now, got)
    {
      if !AnyFreeFor(rows, partySize) {
        return None;
      }
      BestFitExists(rows, partySize);
      var i :| BestFit(rows, partySize, i);
      rows := rows[i := Reserved(rows[i], now)];
      got := Some(rows[i]);
    }
  }

  /**
   * The facts the renumbering loop starts from: the sorted listing is strictly
   * ascending, `at` and `back` link sorted positions and collection positions both
   * ways, and when every number is positive the sorted position `q` holds at least `q + 1`.
   */
  lemma Positions(rest: seq<Table>, order: seq<Table>, positive: bool) returns (at: seq<nat>, back: seq<nat>)
    requires Registry(rest) && order == SortByNumber(rest)
    requires positive == forall k :: 0 <= k < |rest| ==> rest[k].number >= 1
    ensures Ascending(order, true) && Indexes(rest, order, at) && Backs(rest, order, back)
    ensures positive ==> FromOne(order)
    ensures Progress(rest, rest, order, at, 0)
  {
    SortAscending(rest, true);
    at := ForwardPositions(rest, order);
    back := BackPositions(rest, order);
    if positive && |order| > 0 {
      assert order[0] in multiset(rest);
      forall q | 0 <= q < |order| ensures order[q].number >= q + 1 {
        AscendingFromOne(order, q);
      }
    }
    ProgressStart(rest, order, at);
  }

  lemma ForwardPositions(rest: seq<Table>, order: seq<Table>) returns (at: seq<nat>)
    requires UniqueIds(rest) && multiset(order) == multiset(rest)
    ensures Indexes(rest, order, at)
  {
    at := seq(|order|, q requires 0 <= q < |order| => PositionOf(rest, order, q));
  }

  lemma BackPositions(rest: seq<Table>, order: seq<Table>) returns (back: seq<nat>)
    requires multiset(order) == multiset(rest)
    ensures Backs(rest, order, back)
  {
    back := seq(|rest|, k requires 0 <= k < |rest| => SortedPositionOf(rest, order, k));
  }

  /** `at` sends each sorted position to the position of the same table in `rest`. */
  ghost predicate Indexes(rest: seq<Table>, order: seq<Table>, at: seq<nat>) {
    && |at| == |order|
    && forall q :: 0 <= q < |order| ==>
         at[q] < |rest| && rest[at[q]] == order[q] && Find(rest, order[q].id) == Some(at[q])
  }

  /** `back` sends each position of `rest` to the sorted position of the same table. */
  ghost predicate Backs(rest: seq<Table>, order: seq<Table>, back: seq<nat>) {
    && |back| == |rest|
    && forall k :: 0 <= k < |rest| ==> back[k] < |order| && order[back[k]] == rest[k]
  }

  /** Sorted position `q` holds a number of at least `q + 1`. */
  ghost predicate FromOne(order: seq<Table>) {
    forall q :: 0 <= q < |order| ==> order[q].number >= q + 1
  }

  /** The renumbering loop before sorted position `i`. */
  ghost predicate Progress(rows: seq<Table>, rest: seq<Table>, order: seq<Table>, at: seq<nat>, i: int) {
    && 0 <= i <= |order| == |at|
    && SameButNumbers(rows, rest)
    && UniqueNumbers(rows)
    && (forall q :: 0 <= q < i ==> at[q] < |rows| && rows[at[q]].number == q + 1)
    && (forall q :: i <= q < |order| ==> at[q] < |rows| && rows[at[q]].number == order[q].number)
  }

  lemma ProgressStart(rest: seq<Table>, order: seq<Table>, at: seq<nat>)
    requires Indexes(rest, order, at) && UniqueNumbers(rest)
    ensures Progress(rest, rest, order, at, 0)
  {
  }

  /** A table whose number is already right is left as it is. */
  lemma ProgressSkip(rows: seq<Table>, rest: seq<Table>, order: seq<Table>, at: seq<nat>, i: int)
    requires Progress(rows, rest, order, at, i) && i < |order| && order[i].number == i + 1
    ensures Progress(rows, rest, order, at, i + 1)
  {
  }

  /** Giving the table at sorted position `i` the free number `i + 1` keeps the loop's invariant. */
  lemma RenumberStep(rows: seq<Table>, rest: seq<Table>, order: seq<Table>, at: seq<nat>, i: int)
    requires Indexes(rest, order, at) && Progress(rows, rest, order, at, i) && i < |order|
    requires Ascending(order, true) && !NumberTaken(rows, i + 1)
    ensures Find(rows, order[i].id) == Some(at[i])
    ensures Progress(rows[at[i] := rows[at[i]].(number := i + 1)], rest, order, at, i + 1)
  {
    FindSameIds(rows, rest, order[i].id);
    var j := at[i];
    var rows' := rows[j := rows[j].(number := i + 1)];
    forall q | 0 <= q < |order| && q != i ensures at[q] != j {
      assert order[q].number != order[i].number;
    }
  }

  /** When the loop has walked every sorted position, the collection is renumbered. */
  lemma RenumberDone(rows: seq<Table>, rest: seq<Table>, order: seq<Table>, at: seq<nat>)
    requires order == SortByNumber(rest)
    requires Indexes(rest, order, at) && Progress(rows, rest, order, at, |order|)
    ensures Renumbered(rows, rest)
  {
    forall q | 0 <= q < |order|
      ensures Find(rows, order[q].id).Some? && rows[Find(rows, order[q].id).value] == order[q].(number := q + 1)
    {
      FindSameIds(rows, rest, order[q].id);
    }
  }

  /** Changing numbers only, and keeping them unique, keeps the collection valid. */
  lemma SameButNumbersRegistry(rows: seq<Table>, rest: seq<Table>)
    requires Registry(rest) && SameButNumbers(rows, rest) && UniqueNumbers(rows)
    ensures Registry(rows)
  {
    forall k | 0 <= k < |rows| ensures rows[k].id == rest[k].id && rows[k].chairs == rest[k].chairs {
    }
  }

  /** The position in `rest` of the table at sorted position `q`. */
  ghost function PositionOf(rest: seq<Table>, order: seq<Table>, q: int): (k: nat)
    requires 0 <= q < |order| && multiset(order) == multiset(rest) && UniqueIds(rest)
    ensures k < |rest| && rest[k] == order[q] && Find(rest, order[q].id) == Some(k)
  {
    assert order[q] in multiset(rest);
    var k :| 0 <= k < |rest| && rest[k] == order[q];
    FindUnique(rest, k);
    k
  }

  /** The sorted position of the table at position `k` of `rest`. */
  ghost function SortedPositionOf(rest: seq<Table>, order: seq<Table>, k: int): (q: nat)
    requires 0 <= k < |rest| && multiset(order) == multiset(rest)
    ensures q < |order| && order[q] == rest[k]
  {
    assert rest[k] in multiset(order);
    var q :| 0 <= q < |order| && order[q] == rest[k];
    q
  }

  /**
   * In the renumbering loop, when every remaining number is at least 1, no other table
   * holds the number `i + 1` about to be written.
   */
  lemma NoClash(rest: seq<Table>, order: seq<Table>, at: seq<nat>, back: seq<nat>, rows: seq<Table>, i: int, positive: bool)
    requires Ascending(order, true) && Indexes(rest, order, at) && Backs(rest, order, back) && 0 <= i < |order|
    requires UniqueIds(rest) && Progress(rows, rest, order, at, i)
    requires order[i].number != i + 1
    requires positive ==> FromOne(order)
    ensures NumberTaken(rows, i + 1) ==> !positive
  {
  }
}
