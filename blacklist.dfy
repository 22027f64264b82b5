/** The blacklist of gatt_battery_query.c as a value: twenty address slots and
    a write cursor. The class in battery_query.dfy keeps the same data in an
    array and is proved against the functions here. */
module Blacklist {
  import opened BleTypes

  /** `blacklist_size()`: sizeof(blacklist) / sizeof(bd_addr_t) */
  const CAPACITY: nat := 20

  /** The slots, all of them (never-written ones included), and `blacklist_index` */
  datatype Ring = Ring(slots: seq<Address>, cursor: int) {
    predicate Valid() {
      |slots| == CAPACITY && 0 <= cursor < CAPACITY
    }
  }

  /** The blacklist at program start: a zero-initialised static array, cursor 0 */
  function Initial(): (r: Ring)
    ensures r.Valid() && r.cursor == 0
    ensures forall i :: 0 <= i < CAPACITY ==> r.slots[i] == ZERO_ADDRESS
  {
    Ring(seq(CAPACITY, _ => ZERO_ADDRESS), 0)
  }

  /** `blacklist_contains`: some slot, written or not, holds exactly `a` */
  predicate Contains(r: Ring, a: Address) {
    a in r.slots
  }

  /** `add_to_blacklist`: overwrite the slot under the cursor, advance the
      cursor by one modulo the capacity */
  function Insert(r: Ring, a: Address): (r': Ring)
    requires r.Valid()
    ensures r'.Valid()
    ensures r'.cursor == (r.cursor + 1) % CAPACITY
    ensures r'.slots[r.cursor] == a
    ensures forall i :: 0 <= i < CAPACITY && i != r.cursor ==> r'.slots[i] == r.slots[i]
  {
    Ring(r.slots[r.cursor := a], (r.cursor + 1) % CAPACITY)
  }

  /** The slot the `j`-th insertion (counting from 0) writes when the cursor starts at `start` */
  function SlotAt(start: int, j: int): int {
    (start + j) % CAPACITY
  }

  /** `add_to_blacklist` applied to each of `addrs`, first to last */
  function InsertAll(r: Ring, addrs: seq<Address>): (r': Ring)
    requires r.Valid()
    ensures r'.Valid()
    ensures r'.cursor == SlotAt(r.cursor, |addrs|)
    decreases |addrs|
  {
    if addrs == [] then r
    else
      SlotNext(r.cursor, |addrs| - 1);
      Insert(InsertAll(r, addrs[..|addrs| - 1]), addrs[|addrs| - 1])
  }

  /** Advancing the cursor by one from the `j`-th slot gives the `j + 1`-th. */
  lemma SlotNext(start: int, j: int)
    ensures SlotAt(start, j + 1) == (SlotAt(start, j) + 1) % CAPACITY
  {
    var q := (start + j) / CAPACITY;
    var d := (start + j) % CAPACITY;
    assert start + j + 1 == CAPACITY * q + (d + 1);
    if d + 1 < CAPACITY {
      assert (d + 1) % CAPACITY == d + 1;
    } else {
      assert start + j + 1 == CAPACITY * (q + 1);
    }
  }

  /** Right after `add_to_blacklist(a)`, `blacklist_contains(a)` holds. */
  lemma InsertThenContains(r: Ring, a: Address)
    requires r.Valid()
    ensures Contains(Insert(r, a), a)
    ensures forall x :: Contains(r, x) && x != r.slots[r.cursor] ==> Contains(Insert(r, a), x)
  {
    var r' := Insert(r, a);
    assert r'.slots[r.cursor] == a;
    forall x | Contains(r, x) && x != r.slots[r.cursor]
      ensures Contains(r', x)
    {
      var i :| 0 <= i < CAPACITY && r.slots[i] == x;
      assert r'.slots[i] == x;
    }
  }

  /** A full turn of insertions ends on the slot it started from. */
  lemma SlotFullTurn(start: int)
    requires 0 <= start < CAPACITY
    ensures SlotAt(start, CAPACITY) == start
  {
    assert start + CAPACITY == CAPACITY * 1 + start;
  }

  /** Insertions less than a full turn apart land in different slots. */
  lemma SlotsDistinct(start: int, j: int, k: int)
    requires 0 < k - j < CAPACITY
    ensures SlotAt(start, j) != SlotAt(start, k)
  {
  }

  /** Every slot is reached by one of any `CAPACITY` consecutive insertions:
      the one `(i - m) % CAPACITY` after the `m`-th. */
  lemma SlotReached(start: int, m: int, i: int)
    requires 0 <= i < CAPACITY
    ensures SlotAt(start, m + (i - start - m) % CAPACITY) == i
  {
    var d := (i - start - m) % CAPACITY;
    var q := (i - start - m) / CAPACITY;
    assert i - start - m == CAPACITY * q + d;
    assert start + m + d == i - CAPACITY * q;
  }

  /** After `addrs` are inserted, each of the last `CAPACITY` of them sits in
      the slot it was written to, and a slot no insertion reached keeps its
      old address. */
  lemma {:induction false} InsertAllSlots(r: Ring, addrs: seq<Address>)
    requires r.Valid()
    ensures forall j :: 0 <= j < |addrs| && |addrs| - CAPACITY <= j ==>
              InsertAll(r, addrs).slots[SlotAt(r.cursor, j)] == addrs[j]
    ensures forall j :: |addrs| <= j < CAPACITY ==>
              InsertAll(r, addrs).slots[SlotAt(r.cursor, j)] == r.slots[SlotAt(r.cursor, j)]
    decreases |addrs|
  {
    if addrs != [] {
      var n := |addrs|;
      var prefix := addrs[..n - 1];
      var before := InsertAll(r, prefix);
      InsertAllSlots(r, prefix);
      var after := InsertAll(r, addrs);
      assert after == Insert(before, addrs[n - 1]);
      assert before.cursor == SlotAt(r.cursor, n - 1);
      forall j | 0 <= j < n && n - CAPACITY <= j
        ensures after.slots[SlotAt(r.cursor, j)] == addrs[j]
      {
        if j < n - 1 {
          SlotsDistinct(r.cursor, j, n - 1);
          assert prefix[j] == addrs[j];
        }
      }
      forall j | n <= j < CAPACITY
        ensures after.slots[SlotAt(r.cursor, j)] == r.slots[SlotAt(r.cursor, j)]
      {
        SlotsDistinct(r.cursor, n - 1, j);
      }
    }
  }

  /** Each of the last `CAPACITY` insertions is still in the slot it was written to. */
  lemma RecentInsertionSlot(r: Ring, addrs: seq<Address>, j: int)
    requires r.Valid() && 0 <= j < |addrs| && |addrs| - CAPACITY <= j
    ensures InsertAll(r, addrs).slots[SlotAt(r.cursor, j)] == addrs[j]
  {
    InsertAllSlots(r, addrs);
  }

  /** Each of the last `CAPACITY` insertions is still present. */
  lemma RecentInsertionPresent(r: Ring, addrs: seq<Address>, j: int)
    requires r.Valid() && 0 <= j < |addrs| && |addrs| - CAPACITY <= j
    ensures Contains(InsertAll(r, addrs), addrs[j])
  {
    RecentInsertionSlot(r, addrs, j);
    assert InsertAll(r, addrs).slots[SlotAt(r.cursor, j)] == addrs[j];
  }

  /** Once `CAPACITY` insertions have been made, slot `i` holds one of the
      last `CAPACITY` of them: the one at position `j`. */
  lemma SlotHoldsRecentInsertion(r: Ring, addrs: seq<Address>, i: int) returns (j: int)
    requires r.Valid() && |addrs| >= CAPACITY && 0 <= i < CAPACITY
    ensures |addrs| - CAPACITY <= j < |addrs|
    ensures InsertAll(r, addrs).slots[i] == addrs[j]
  {
    var m := |addrs| - CAPACITY;
    SlotReached(r.cursor, m, i);
    j := m + (i - r.cursor - m) % CAPACITY;
    RecentInsertionSlot(r, addrs, j);
  }

  /** Once at least `CAPACITY` addresses have been inserted, `blacklist_contains(x)`
      holds exactly when `x` is one of the last `CAPACITY` of them: older
      entries and the initial contents are gone. */
  lemma ContainsLastInsertions(r: Ring, addrs: seq<Address>, x: Address)
    requires r.Valid() && |addrs| >= CAPACITY
    ensures Contains(InsertAll(r, addrs), x) <==> x in addrs[|addrs| - CAPACITY..]
  {
    var m := |addrs| - CAPACITY;
    var recent := addrs[m..];
    if x in recent {
      var k :| 0 <= k < |recent| && recent[k] == x;
      RecentInsertionPresent(r, addrs, m + k);
    }
    if Contains(InsertAll(r, addrs), x) {
      var i :| 0 <= i < CAPACITY && InsertAll(r, addrs).slots[i] == x;
      var j := SlotHoldsRecentInsertion(r, addrs, i);
      assert recent[j - m] == x;
    }
  }

  /** Twenty consecutive insertions bring the cursor back to where it started
      and overwrite every slot, each with the address written there. */
  lemma FullTurn(r: Ring, addrs: seq<Address>)
    requires r.Valid() && |addrs| == CAPACITY
    ensures InsertAll(r, addrs).cursor == r.cursor
    ensures forall j :: 0 <= j < CAPACITY ==> InsertAll(r, addrs).slots[SlotAt(r.cursor, j)] == addrs[j]
  {
    var after := InsertAll(r, addrs);
    SlotFullTurn(r.cursor);
    forall j | 0 <= j < CAPACITY
      ensures after.slots[SlotAt(r.cursor, j)] == addrs[j]
    {
      RecentInsertionSlot(r, addrs, j);
    }
  }

  /** After twenty consecutive insertions an address is blacklisted exactly
      when it was one of them. */
  lemma FullTurnContains(r: Ring, addrs: seq<Address>, x: Address)
    requires r.Valid() && |addrs| == CAPACITY
    ensures Contains(InsertAll(r, addrs), x) <==> x in addrs
  {
    if x in addrs {
      var j :| 0 <= j < |addrs| && addrs[j] == x;
      RecentInsertionPresent(r, addrs, j);
    }
    if Contains(InsertAll(r, addrs), x) {
      var i :| 0 <= i < CAPACITY && InsertAll(r, addrs).slots[i] == x;
      var j := SlotHoldsRecentInsertion(r, addrs, i);
    }
  }

  /** An inserted address stays blacklisted while fewer than `CAPACITY`
      further insertions follow it. */
  lemma StaysWithinCapacity(r: Ring, a: Address, later: seq<Address>)
    requires r.Valid() && |later| < CAPACITY
    ensures Contains(InsertAll(r, [a] + later), a)
  {
    RecentInsertionPresent(r, [a] + later, 0);
  }

  /** Twenty-one distinct insertions: the first address is no longer
      blacklisted and the last twenty are. */
  lemma TwentyFirstInsertionEvicts(r: Ring, addrs: seq<Address>)
    requires r.Valid() && |addrs| == CAPACITY + 1
    requires addrs[0] !in addrs[1..]
    ensures !Contains(InsertAll(r, addrs), addrs[0])
    ensures forall j :: 1 <= j < |addrs| ==> Contains(InsertAll(r, addrs), addrs[j])
  {
    ContainsLastInsertions(r, addrs, addrs[0]);
    forall j | 1 <= j < |addrs|
      ensures Contains(InsertAll(r, addrs), addrs[j])
    {
      ContainsLastInsertions(r, addrs, addrs[j]);
      assert addrs[1..][j - 1] == addrs[j];
    }
  }

  /** The zero-initialised blacklist reports the all-zero address as present. */
  lemma ZeroAddressInitiallyBlacklisted()
    ensures Contains(Initial(), ZERO_ADDRESS)
    ensures forall a :: Contains(Initial(), a) <==> a == ZERO_ADDRESS
  {
    assert Initial().slots[0] == ZERO_ADDRESS;
  }
}
