/**
 * The database the application talks to, as one mutable object whose
 * tables the commands rewrite in place. Whether the store carries out a
 * command (rather than rejecting it on a constraint, a lost connection
 * or a failing stored function) is decided by the `accepts` oracle the
 * caller passes in.
 */
module Database {
  import opened Wrappers
  import opened Collections
  import opened AppointmentStatus
  import opened Schema
  import opened ClientCleanup
  import opened MasterAssignments
  import opened BookingCancellation

  class Store {
    var appointments: map<int, Appointment>
    var reviews: map<int, Review>
    var slots: map<int, Slot>
    var masters: map<int, Master>
    var assignments: set<Assignment>

    /** The current contents of every table. */
    function Snapshot(): Tables
      reads this
    {
      Tables(appointments, reviews, slots, masters, assignments)
    }

    constructor (t: Tables)
      ensures Snapshot() == t
    {
      appointments, reviews, slots, masters, assignments := t.appointments, t.reviews, t.slots, t.masters, t.assignments;
    }

    /** Issues one command; a rejected command leaves every table as it was. */
    method Execute(c: Command, accepts: Command -> bool) returns (done: bool)
      modifies this
      ensures done == accepts(c)
      ensures Snapshot() == if done then Apply(old(Snapshot()), c) else old(Snapshot())
    {
      done := accepts(c);
      if !done {
        return;
      }
      var t := Snapshot();
      match c {
        case SelectClientAppointments(_) =>
        case SelectAppointmentStatus(_) =>
        case DeleteReviewsOfClientAppointments(client) =>
          reviews := map r | r in reviews && !OfClientAppointment(t, reviews[r], client) :: reviews[r];
        case DeleteReviewsByClient(client) =>
          reviews := map r | r in reviews && reviews[r].clientId != client :: reviews[r];
        case CancelAppointment(id) =>
          if id in appointments {
            var a := appointments[id];
            appointments := appointments[id := a.(status := Some(Cancelled))];
            if a.slotId.Some? && a.slotId.value in slots {
              slots := slots[a.slotId.value := Free(slots[a.slotId.value])];
            }
          }
        case DeleteClientAppointments(client) =>
          appointments := map id | id in appointments && appointments[id].clientId != client :: appointments[id];
        case ReleaseSlot(s) =>
          if s in slots {
            slots := slots[s := Free(slots[s])];
          }
        case DeleteServiceAssignments(salon, service) =>
          assignments := set a | a in assignments && !(a.serviceId == service && InSalon(t, a.masterId, salon));
        case InsertAssignment(m, service) =>
          assignments := assignments + {Assignment(m, service)};
      }
    }

    /**
     * Issues command `k` of `plan`, every earlier command of which was
     * carried out starting from `t0`. On rejection the run of the whole
     * plan ends here, in the current state.
     */
    method Issue(ghost t0: Tables, ghost plan: seq<Command>, ghost k: nat, c: Command, accepts: Command -> bool)
      returns (done: bool)
      requires k < |plan| && plan[k] == c
      requires Snapshot() == ApplyAll(t0, plan[..k]) && forall i :: 0 <= i < k ==> accepts(plan[i])
      modifies this
      ensures done == accepts(c)
      ensures done ==> Snapshot() == ApplyAll(t0, plan[..k + 1]) && forall i :: 0 <= i < k + 1 ==> accepts(plan[i])
      ensures !done ==> Run(t0, plan, accepts) == (false, Snapshot())
    {
      done := Execute(c, accepts);
      if done {
        assert plan[..k + 1] == plan[..k] + [c];
        ApplyAllSnoc(t0, plan[..k], c);
      } else {
        RunStopsAtFirstRejection(t0, plan, accepts, k);
      }
    }

    /**
     * Reads the client's appointment rows, in whatever order they come,
     * and collects every id, the ids whose status the cancellation gate
     * lets through, and the slots they reference.
     */
    method ScanClientAppointments(clientId: int)
      returns (appointmentIds: seq<int>, cancellableIds: seq<int>, slotsToRelease: set<int>)
      ensures forall id :: id in appointmentIds <==> id in ClientAppointmentIds(Snapshot(), clientId)
      ensures appointmentIds == [] <==> ClientAppointmentIds(Snapshot(), clientId) == {}
      ensures Distinct(cancellableIds)
      ensures forall id :: id in cancellableIds <==> id in CancellableIds(Snapshot(), clientId)
      ensures slotsToRelease == ClientSlots(Snapshot(), clientId)
    {
      var rows := ClientAppointmentIds(Snapshot(), clientId);
      var remaining := rows;
      appointmentIds, cancellableIds, slotsToRelease := [], [], {};
      while remaining != {}
        invariant remaining <= rows
        invariant forall id :: id in appointmentIds <==> id in rows && id !in remaining
        invariant Distinct(cancellableIds)
        invariant forall id :: id in cancellableIds <==> id in rows && id !in remaining && MayCancel(appointments[id].status)
        invariant forall s :: s in slotsToRelease <==>
                    exists id :: id in rows && id !in remaining && appointments[id].slotId == Some(s)
        decreases remaining
      {
        NonEmptyHasElement(remaining);
        var id :| id in remaining;
        var row := appointments[id];
        appointmentIds := appointmentIds + [id];
        if MayCancel(row.status) {
          DistinctConcat(cancellableIds, [id]);
          cancellableIds := cancellableIds + [id];
        }
        if row.slotId.Some? {
          slotsToRelease := slotsToRelease + {row.slotId.value};
        }
        remaining := remaining - {id};
      }
      if rows != {} {
        NonEmptyHasElement(rows);
        var id :| id in rows;
        assert id in appointmentIds;
      }
      if appointmentIds != [] {
        assert appointmentIds[0] in appointmentIds;
      }
      forall s ensures s in slotsToRelease <==> s in ClientSlots(Snapshot(), clientId) {
        if s in ClientSlots(Snapshot(), clientId) {
          var id :| id in appointments && appointments[id].clientId == clientId && appointments[id].slotId.Some?
                    && appointments[id].slotId.value == s;
          assert id in rows;
        }
        if s in slotsToRelease {
          var id :| id in rows && id !in remaining && appointments[id].slotId == Some(s);
          assert appointments[id].slotId.value == s;
        }
      }
    }

    /** Lists a set's elements once each, in the order iteration yields them. */
    method Enumerate(s: set<int>) returns (order: seq<int>)
      ensures Distinct(order)
      ensures forall x :: x in order <==> x in s
    {
      var remaining := s;
      order := [];
      while remaining != {}
        invariant remaining <= s
        invariant Distinct(order)
        invariant forall x :: x in order <==> x in s && x !in remaining
        decreases remaining
      {
        NonEmptyHasElement(remaining);
        var x :| x in remaining;
        DistinctConcat(order, [x]);
        order := order + [x];
        remaining := remaining - {x};
      }
    }

    /**
     * Cancels the listed appointments one by one, as commands `k` onwards
     * of `plan`; stops at the first rejection.
     */
    method CancelEach(ghost t0: Tables, ghost plan: seq<Command>, ghost k: nat, ids: seq<int>, accepts: Command -> bool)
      returns (done: bool)
      requires k + |ids| <= |plan| && forall i :: 0 <= i < |ids| ==> plan[k + i] == CancelAppointment(ids[i])
      requires Snapshot() == ApplyAll(t0, plan[..k]) && forall i :: 0 <= i < k ==> accepts(plan[i])
      modifies this
      ensures done ==> Snapshot() == ApplyAll(t0, plan[..k + |ids|]) && forall i :: 0 <= i < k + |ids| ==> accepts(plan[i])
      ensures !done ==> Run(t0, plan, accepts) == (false, Snapshot())
    {
      done := true;
      for i := 0 to |ids|
        invariant Snapshot() == ApplyAll(t0, plan[..k + i])
        invariant forall j :: 0 <= j < k + i ==> accepts(plan[j])
      {
        done := Issue(t0, plan, k + i, CancelAppointment(ids[i]), accepts);
        if !done {
          return;
        }
      }
    }

    /**
     * Marks the listed slots free one by one, as commands `k` onwards of
     * `plan`; stops at the first rejection.
     */
    method ReleaseEach(ghost t0: Tables, ghost plan: seq<Command>, ghost k: nat, slotIds: seq<int>, accepts: Command -> bool)
      returns (done: bool)
      requires k + |slotIds| == |plan| && forall i :: 0 <= i < |slotIds| ==> plan[k + i] == ReleaseSlot(slotIds[i])
      requires Snapshot() == ApplyAll(t0, plan[..k]) && forall i :: 0 <= i < k ==> accepts(plan[i])
      modifies this
      ensures Run(t0, plan, accepts) == (done, Snapshot())
      ensures done ==> Snapshot() == ApplyAll(t0, plan)
    {
      done := true;
      for i := 0 to |slotIds|
        invariant Snapshot() == ApplyAll(t0, plan[..k + i])
        invariant forall j :: 0 <= j < k + i ==> accepts(plan[j])
      {
        done := Issue(t0, plan, k + i, ReleaseSlot(slotIds[i]), accepts);
        if !done {
          return;
        }
      }
      assert plan[..|plan|] == plan;
      RunStopsAtFirstRejection(t0, plan, accepts, |plan|);
    }

    /**
     * Removes what the client's bookings left behind, ahead of deleting
     * the client: the reviews tied to their appointments and their own
     * reviews, then a cancellation of every appointment still open, then
     * the appointments, then a release of every slot they referenced.
     * The first rejected command ends the cleanup with failure, and what
     * was already done stays done. The ghost results name the orders the
     * rows and the slot set were visited in.
     */
    method CleanupClientRelatedData(clientId: int, accepts: Command -> bool)
      returns (success: bool, ghost hasAppointments: bool, ghost cancelOrder: seq<int>, ghost releaseOrder: seq<int>)
      modifies this
      ensures IsCleanupOrder(old(Snapshot()), clientId, hasAppointments, cancelOrder, releaseOrder)
      ensures (success, Snapshot()) == Run(old(Snapshot()), CleanupPlan(clientId, hasAppointments, cancelOrder, releaseOrder), accepts)
      ensures success ==> Snapshot() == Cleaned(old(Snapshot()), clientId)
      ensures Untouched(old(Snapshot()), Snapshot(), clientId)
    {
      ghost var t0 := Snapshot();
      success := Execute(SelectClientAppointments(clientId), accepts);
      if !success {
        hasAppointments, cancelOrder, releaseOrder := SomeCleanupOrder(t0, clientId);
        FirstCommandRejected(t0, clientId, hasAppointments, cancelOrder, releaseOrder, accepts);
        CleanupRunUntouched(t0, clientId, hasAppointments, cancelOrder, releaseOrder, accepts);
        return;
      }

      var appointmentIds, cancellableIds, slotsToRelease := ScanClientAppointments(clientId);
      var releaseList := Enumerate(slotsToRelease);
      hasAppointments, cancelOrder, releaseOrder := appointmentIds != [], cancellableIds, releaseList;
      success := CleanupAfterScan(t0, clientId, appointmentIds != [], cancellableIds, releaseList, accepts);
      CleanupRunUntouched(t0, clientId, hasAppointments, cancelOrder, releaseOrder, accepts);
    }

    /**
     * The commands of a cleanup that follow the reading of the rows, for
     * the orders that reading produced.
     */
    method CleanupAfterScan(ghost t0: Tables, clientId: int, any: bool, cancellableIds: seq<int>, releaseList: seq<int>,
                            accepts: Command -> bool)
      returns (success: bool)
      requires Snapshot() == t0 && accepts(SelectClientAppointments(clientId))
      requires IsCleanupOrder(t0, clientId, any, cancellableIds, releaseList)
      modifies this
      ensures (success, Snapshot()) == Run(t0, CleanupPlan(clientId, any, cancellableIds, releaseList), accepts)
      ensures success ==> Snapshot() == Cleaned(t0, clientId)
    {
      ghost var plan := CleanupPlan(clientId, any, cancellableIds, releaseList);
      ghost var a := if any then 1 else 0;
      CleanupPlanAt(clientId, any, cancellableIds, releaseList);
      assert ApplyAll(t0, plan[..1]) == ApplyAll(Apply(t0, plan[0]), []);

      success := DeleteReviews(t0, plan, clientId, any, accepts);
      if !success {
        return;
      }
      success := CancelEach(t0, plan, 2 + a, cancellableIds, accepts);
      if !success {
        return;
      }
      success := DeleteAppointmentsAndRelease(t0, plan, 2 + a + |cancellableIds|, clientId, any, releaseList, accepts);
      if success {
        CleanupPlanOutcome(t0, clientId, any, cancellableIds, releaseList);
      }
    }

    /**
     * Deletes the reviews tied to the client's appointments (when there
     * are any) and then the client's own reviews, as commands 1 onwards
     * of `plan`.
     */
    method DeleteReviews(ghost t0: Tables, ghost plan: seq<Command>, clientId: int, any: bool, accepts: Command -> bool)
      returns (done: bool)
      requires 2 + (if any then 1 else 0) <= |plan|
      requires any ==> plan[1] == DeleteReviewsOfClientAppointments(clientId)
      requires plan[1 + (if any then 1 else 0)] == DeleteReviewsByClient(clientId)
      requires Snapshot() == ApplyAll(t0, plan[..1]) && accepts(plan[0])
      modifies this
      ensures done ==> var k := 2 + (if any then 1 else 0);
                       Snapshot() == ApplyAll(t0, plan[..k]) && forall i :: 0 <= i < k ==> accepts(plan[i])
      ensures !done ==> Run(t0, plan, accepts) == (false, Snapshot())
    {
      if any {
        done := Issue(t0, plan, 1, DeleteReviewsOfClientAppointments(clientId), accepts);
        if !done {
          return;
        }
      }
      done := Issue(t0, plan, 1 + (if any then 1 else 0), DeleteReviewsByClient(clientId), accepts);
    }

    /**
     * Deletes the client's appointments (when there are any) and then
     * frees the listed slots, as the last commands of `plan`, from `k` on.
     */
    method DeleteAppointmentsAndRelease(ghost t0: Tables, ghost plan: seq<Command>, ghost k: nat, clientId: int, any: bool,
                                        releaseList: seq<int>, accepts: Command -> bool)
      returns (done: bool)
      requires k + (if any then 1 else 0) + |releaseList| == |plan|
      requires any ==> plan[k] == DeleteClientAppointments(clientId)
      requires forall j :: 0 <= j < |releaseList| ==> plan[k + (if any then 1 else 0) + j] == ReleaseSlot(releaseList[j])
      requires Snapshot() == ApplyAll(t0, plan[..k]) && forall i :: 0 <= i < k ==> accepts(plan[i])
      modifies this
      ensures Run(t0, plan, accepts) == (done, Snapshot())
      ensures done ==> Snapshot() == ApplyAll(t0, plan)
    {
      if any {
        done := Issue(t0, plan, k, DeleteClientAppointments(clientId), accepts);
        if !done {
          return;
        }
      }
      done := ReleaseEach(t0, plan, k + (if any then 1 else 0), releaseList, accepts);
    }

  /** Orders a cleanup of `t` could have used, for a cleanup that never got to read the rows. */
    ghost method SomeCleanupOrder(t: Tables, clientId: int)
      returns (hasAppointments: bool, cancelOrder: seq<int>, releaseOrder: seq<int>)
      ensures IsCleanupOrder(t, clientId, hasAppointments, cancelOrder, releaseOrder)
    {
      hasAppointments := ClientAppointmentIds(t, clientId) != {};
      SetHasOrder(CancellableIds(t, clientId));
      cancelOrder :| Distinct(cancelOrder) && forall id :: id in cancelOrder <==> id in CancellableIds(t, clientId);
      SetHasOrder(ClientSlots(t, clientId));
      releaseOrder :| Distinct(releaseOrder) && forall s :: s in releaseOrder <==> s in ClientSlots(t, clientId);
    }

    /**
     * Replaces the salon's masters for a service: the old assignments go,
     * then one row is inserted per chosen master; the first rejected
     * command ends the save with failure and nothing undone.
     */
    method SaveMasterAssignments(salonId: int, serviceId: int, masterIds: seq<int>, accepts: Command -> bool)
      returns (success: bool)
      modifies this
      ensures (success, Snapshot()) == Run(old(Snapshot()), SavePlan(salonId, serviceId, masterIds), accepts)
      ensures success ==> Snapshot() == Reassigned(old(Snapshot()), salonId, serviceId, masterIds)
    {
      ghost var t0 := Snapshot();
      ghost var plan := SavePlan(salonId, serviceId, masterIds);
      assert plan[..0] == [];
      success := Issue(t0, plan, 0, DeleteServiceAssignments(salonId, serviceId), accepts);
      if !success {
        return;
      }
      for i := 0 to |masterIds|
        invariant Snapshot() == ApplyAll(t0, plan[..1 + i])
        invariant forall j :: 0 <= j < 1 + i ==> accepts(plan[j])
      {
        success := Issue(t0, plan, 1 + i, InsertAssignment(masterIds[i], serviceId), accepts);
        if !success {
          return;
        }
      }
      assert plan[..|plan|] == plan;
      RunStopsAtFirstRejection(t0, plan, accepts, |plan|);
      SavePlanOutcome(t0, salonId, serviceId, masterIds);
    }

    /**
     * A client's attempt to cancel a booking; `confirmed` is the user's
     * answer to the confirmation question. Only a successful attempt
     * changes the tables.
     */
    method CancelBooking(appointmentId: Option<int>, confirmed: bool, accepts: Command -> bool)
      returns (outcome: CancelOutcome)
      modifies this
      ensures outcome == CancelOutcomeOf(old(Snapshot()), appointmentId, confirmed, accepts)
      ensures Snapshot() == if outcome == Done then Apply(old(Snapshot()), CancelAppointment(appointmentId.value))
                            else old(Snapshot())
    {
      if appointmentId.None? {
        return BadIdentifier;
      }
      var id := appointmentId.value;
      ghost var t := Snapshot();
      var found := Execute(SelectAppointmentStatus(id), accepts);
      assert Snapshot() == t;
      if !found || id !in appointments {
        return NotFound;
      }
      if !MayCancel(appointments[id].status) {
        return Refused;
      }
      if !confirmed {
        return Declined;
      }
      var done := Execute(CancelAppointment(id), accepts);
      assert Snapshot() == if done then Apply(t, CancelAppointment(id)) else t;
      outcome := if done then Done else Failed;
    }
  }
}
