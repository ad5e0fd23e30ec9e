/**
 * The free-slot listing shown when a client books: the salon's active
 * masters' slots that are not booked, that no appointment references and
 * that start now or later, earliest first, at most `limit` of them.
 */
module Availability {
  import opened Wrappers
  import opened Collections
  import opened Schema

  /** The number of slots the booking dialog asks for. */
  const DefaultLimit: nat := 20

  /** One row of the listing: the slot and its master. */
  datatype SlotRow = SlotRow(slotId: int, start: int, end: int, masterId: int)

  function RowOf(t: Tables, s: int): SlotRow
    requires s in t.slots
  {
    var slot := t.slots[s];
    SlotRow(s, slot.start, slot.end, slot.masterId)
  }

  /** Whether some appointment, of any status, points at the slot. */
  predicate Referenced(t: Tables, s: int) {
    exists id :: id in t.appointments && t.appointments[id].slotId == Some(s)
  }

  /** Whether the slot may be offered for booking in the salon at time `now`. */
  predicate Bookable(t: Tables, salonId: int, now: int, s: int) {
    && s in t.slots
    && var slot := t.slots[s];
       && InSalon(t, slot.masterId, salonId) && t.masters[slot.masterId].active
       && !slot.isBooked && !Referenced(t, s) && slot.start >= now
  }

  /** The slots the query's joins and filters keep, in the order the store visits `scanOrder`. */
  function Candidates(t: Tables, salonId: int, now: int, scanOrder: seq<int>): (rows: seq<SlotRow>)
    ensures forall i :: 0 <= i < |rows| ==>
              rows[i].slotId in scanOrder && Bookable(t, salonId, now, rows[i].slotId) && rows[i] == RowOf(t, rows[i].slotId)
    ensures forall s :: s in scanOrder && Bookable(t, salonId, now, s) ==> RowOf(t, s) in rows
    decreases |scanOrder|
  {
    if scanOrder == [] then []
    else
      var rest := Candidates(t, salonId, now, scanOrder[1..]);
      if Bookable(t, salonId, now, scanOrder[0]) then [RowOf(t, scanOrder[0])] + rest else rest
  }

  predicate SortedByStart(rows: seq<SlotRow>) {
    forall i, j :: 0 <= i < j < |rows| ==> rows[i].start <= rows[j].start
  }

  /** Places a row before the first row that starts no earlier. */
  function InsertByStart(r: SlotRow, rows: seq<SlotRow>): (res: seq<SlotRow>)
    requires SortedByStart(rows)
    ensures SortedByStart(res)
    ensures forall x :: x in res <==> x == r || x in rows
    ensures multiset(res) == multiset(rows) + multiset{r}
    decreases |rows|
  {
    if rows == [] || r.start <= rows[0].start then
      SortedCons(r, rows);
      [r] + rows
    else
      var rest := InsertByStart(r, rows[1..]);
      InsertLater(r, rows, rest);
      [rows[0]] + rest
  }

  /** Putting the first row back in front of the rest with `r` inserted gives the list with `r` inserted. */
  lemma InsertLater(r: SlotRow, rows: seq<SlotRow>, rest: seq<SlotRow>)
    requires SortedByStart(rows) && rows != [] && rows[0].start < r.start
    requires SortedByStart(rest)
    requires forall x :: x in rest <==> x == r || x in rows[1..]
    requires multiset(rest) == multiset(rows[1..]) + multiset{r}
    ensures SortedByStart([rows[0]] + rest)
    ensures forall x :: x in [rows[0]] + rest <==> x == r || x in rows
    ensures multiset([rows[0]] + rest) == multiset(rows) + multiset{r}
  {
    assert rows == [rows[0]] + rows[1..];
    forall x | x in rest ensures rows[0].start <= x.start {
      if x != r {
        var k :| 0 <= k < |rows[1..]| && rows[1..][k] == x;
        assert rows[k + 1] == x;
      }
    }
    SortedCons(rows[0], rest);
  }

  /** A row no later than every row of a start-ordered list may go in front of it. */
  lemma SortedCons(h: SlotRow, rows: seq<SlotRow>)
    requires SortedByStart(rows)
    requires forall x :: x in rows ==> h.start <= x.start
    ensures SortedByStart([h] + rows)
  {
    var res := [h] + rows;
    forall i, j | 0 <= i < j < |res| ensures res[i].start <= res[j].start {
      assert res[j] == rows[j - 1];
      if i > 0 {
        assert res[i] == rows[i - 1];
      }
    }
  }

  /** The rows ordered by start time, as `ORDER BY start_ts` does. */
  function SortByStart(rows: seq<SlotRow>): (res: seq<SlotRow>)
    ensures SortedByStart(res)
    ensures multiset(res) == multiset(rows)
    decreases |rows|
  {
    if rows == [] then []
    else
      assert rows == [rows[0]] + rows[1..];
      InsertByStart(rows[0], SortByStart(rows[1..]))
  }

  function Min(a: int, b: int): int {
    if a <= b then a else b
  }

  /**
   * The listing: nothing without a salon or when the query is rejected,
   * otherwise the first `limit` bookable slots by start time.
   */
  function AvailableSlots(salonId: Option<int>, t: Tables, now: int, limit: nat, accepted: bool, scanOrder: seq<int>)
    : (r: seq<SlotRow>)
    ensures salonId.None? || !accepted ==> r == []
    ensures |r| <= limit
  {
    if salonId.None? || !accepted then []
    else
      var sorted := SortByStart(Candidates(t, salonId.value, now, scanOrder));
      sorted[..Min(limit, |sorted|)]
  }

  /**
   * Every listed slot is bookable, the listing is ordered by start, it
   * holds as many slots as the limit allows, and every bookable slot
   * left out starts no earlier than any listed one.
   */
  lemma AvailableSlotsSpec(salonId: int, t: Tables, now: int, limit: nat, scanOrder: seq<int>)
    ensures var r := AvailableSlots(Some(salonId), t, now, limit, true, scanOrder);
            var c := Candidates(t, salonId, now, scanOrder);
            && (forall i :: 0 <= i < |r| ==> Bookable(t, salonId, now, r[i].slotId) && r[i] == RowOf(t, r[i].slotId))
            && SortedByStart(r)
            && |r| == Min(limit, |c|)
            && multiset(r) <= multiset(c)
            && (forall x :: x in multiset(c) - multiset(r) ==> |r| == limit && forall y :: y in r ==> y.start <= x.start)
  {
    var c := Candidates(t, salonId, now, scanOrder);
    var sorted := SortByStart(c);
    var k := Min(limit, |sorted|);
    assert |sorted| == |multiset(sorted)| == |multiset(c)| == |c|;
    SortedPrefix(sorted, k);
    forall i | 0 <= i < k ensures Bookable(t, salonId, now, sorted[i].slotId) && sorted[i] == RowOf(t, sorted[i].slotId) {
      assert sorted[i] in multiset(c);
    }
  }

  /**
   * A prefix of a start-ordered listing keeps the earliest rows: what it
   * leaves out starts no earlier than anything it keeps.
   */
  lemma SortedPrefix(sorted: seq<SlotRow>, k: nat)
    requires SortedByStart(sorted) && k <= |sorted|
    ensures SortedByStart(sorted[..k])
    ensures multiset(sorted[..k]) <= multiset(sorted)
    ensures forall x :: x in multiset(sorted) - multiset(sorted[..k]) ==>
              k < |sorted| && forall y :: y in sorted[..k] ==> y.start <= x.start
  {
    var r := sorted[..k];
    assert sorted == r + sorted[k..];
    assert multiset(sorted) == multiset(r) + multiset(sorted[k..]);
    forall x | x in multiset(sorted) - multiset(r) ensures k < |sorted| && forall y :: y in r ==> y.start <= x.start {
      assert x in sorted[k..];
      var j :| k <= j < |sorted| && sorted[j] == x;
      forall y | y in r ensures y.start <= x.start {
        var i :| 0 <= i < k && sorted[i] == y;
      }
    }
  }

  lemma {:induction false} CandidatesDistinct(t: Tables, salonId: int, now: int, scanOrder: seq<int>)
    requires Distinct(scanOrder)
    ensures Distinct(Candidates(t, salonId, now, scanOrder))
    decreases |scanOrder|
  {
    if scanOrder != [] {
      var rest := Candidates(t, salonId, now, scanOrder[1..]);
      assert Distinct(scanOrder[1..]);
      CandidatesDistinct(t, salonId, now, scanOrder[1..]);
      if Bookable(t, salonId, now, scanOrder[0]) {
        assert scanOrder[0] !in scanOrder[1..];
        DistinctConcat([RowOf(t, scanOrder[0])], rest);
      }
    }
  }

  lemma {:induction false} InsertDistinct(r: SlotRow, rows: seq<SlotRow>)
    requires SortedByStart(rows) && Distinct(rows) && r !in rows
    ensures Distinct(InsertByStart(r, rows))
    decreases |rows|
  {
    if rows == [] || r.start <= rows[0].start {
      DistinctConcat([r], rows);
    } else {
      assert Distinct(rows[1..]);
      InsertDistinct(r, rows[1..]);
      var rest := InsertByStart(r, rows[1..]);
      assert rows[0] !in multiset(rest);
      DistinctConcat([rows[0]], rest);
    }
  }

  lemma {:induction false} SortDistinct(rows: seq<SlotRow>)
    requires Distinct(rows)
    ensures Distinct(SortByStart(rows))
    decreases |rows|
  {
    if rows != [] {
      assert Distinct(rows[1..]);
      SortDistinct(rows[1..]);
      assert rows[0] !in multiset(rows[1..]);
      InsertDistinct(rows[0], SortByStart(rows[1..]));
    }
  }

  /**
   * When the store visits every slot once, every bookable slot is a
   * candidate and the listing shows no slot twice.
   */
  lemma AvailableSlotsComplete(salonId: int, t: Tables, now: int, limit: nat, scanOrder: seq<int>)
    requires Distinct(scanOrder) && forall s :: s in scanOrder <==> s in t.slots
    ensures forall s :: Bookable(t, salonId, now, s) ==> RowOf(t, s) in Candidates(t, salonId, now, scanOrder)
    ensures Distinct(AvailableSlots(Some(salonId), t, now, limit, true, scanOrder))
  {
    var c := Candidates(t, salonId, now, scanOrder);
    CandidatesDistinct(t, salonId, now, scanOrder);
    SortDistinct(c);
  }

  /**
   * Cancelling a booking leaves the appointment pointing at its slot, so
   * the slot is not offered again even though its booked flag is cleared.
   */
  lemma CancelledSlotNotListed(t: Tables, id: int, salonId: int, now: int)
    requires id in t.appointments && t.appointments[id].slotId.Some?
    ensures var u := Apply(t, CancelAppointment(id));
            var s := t.appointments[id].slotId.value;
            && id in u.appointments && u.appointments[id].slotId == Some(s)
            && !Bookable(u, salonId, now, s)
  {
    var u := Apply(t, CancelAppointment(id));
    assert u.appointments[id].slotId == t.appointments[id].slotId;
    assert Referenced(u, t.appointments[id].slotId.value);
  }
}
