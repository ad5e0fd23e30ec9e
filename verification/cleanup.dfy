/**
 * What removing a client's bookable state does before the client row is
 * deleted: the commands issued, in order, and the state they lead to
 * when every one of them is accepted.
 */
module ClientCleanup {
  import opened Wrappers
  import opened Collections
  import opened AppointmentStatus
  import opened Schema

  /** Ids of the client's appointments. */
  function ClientAppointmentIds(t: Tables, clientId: int): set<int> {
    set id | id in t.appointments && t.appointments[id].clientId == clientId
  }

  /** Ids of the client's appointments whose status the cancellation gate lets through. */
  function CancellableIds(t: Tables, clientId: int): (ids: set<int>)
    ensures ids <= ClientAppointmentIds(t, clientId)
  {
    set id | id in ClientAppointmentIds(t, clientId) && MayCancel(t.appointments[id].status)
  }

  /** Slots referenced by any of the client's appointments, whatever their status. */
  function ClientSlots(t: Tables, clientId: int): set<int> {
    set id | id in t.appointments && t.appointments[id].clientId == clientId && t.appointments[id].slotId.Some?
           :: t.appointments[id].slotId.value
  }

  function Cancels(ids: seq<int>): (cmds: seq<Command>)
    ensures |cmds| == |ids| && forall i :: 0 <= i < |ids| ==> cmds[i] == CancelAppointment(ids[i])
  {
    seq(|ids|, i requires 0 <= i < |ids| => CancelAppointment(ids[i]))
  }

  function Releases(ids: seq<int>): (cmds: seq<Command>)
    ensures |cmds| == |ids| && forall i :: 0 <= i < |ids| ==> cmds[i] == ReleaseSlot(ids[i])
  {
    seq(|ids|, i requires 0 <= i < |ids| => ReleaseSlot(ids[i]))
  }

  /**
   * The commands of a cleanup, in the order they are issued. The two
   * statements keyed on the client's appointments are skipped when the
   * client has none.
   */
  function CleanupPlan(clientId: int, hasAppointments: bool, cancelOrder: seq<int>, releaseOrder: seq<int>): seq<Command> {
    [SelectClientAppointments(clientId)]
    + (if hasAppointments then [DeleteReviewsOfClientAppointments(clientId)] else [])
    + [DeleteReviewsByClient(clientId)]
    + Cancels(cancelOrder)
    + (if hasAppointments then [DeleteClientAppointments(clientId)] else [])
    + Releases(releaseOrder)
  }

  /** Where each command sits in a cleanup plan. */
  lemma CleanupPlanAt(clientId: int, hasAppointments: bool, cancelOrder: seq<int>, releaseOrder: seq<int>)
    ensures var p := CleanupPlan(clientId, hasAppointments, cancelOrder, releaseOrder);
            var a := if hasAppointments then 1 else 0;
            && |p| == 2 + 2 * a + |cancelOrder| + |releaseOrder|
            && p[0] == SelectClientAppointments(clientId)
            && (hasAppointments ==> p[1] == DeleteReviewsOfClientAppointments(clientId))
            && p[1 + a] == DeleteReviewsByClient(clientId)
            && (forall i :: 2 + a <= i < 2 + a + |cancelOrder| ==> p[i] == CancelAppointment(cancelOrder[i - (2 + a)]))
            && (hasAppointments ==> p[2 + a + |cancelOrder|] == DeleteClientAppointments(clientId))
            && (forall j :: 2 + 2 * a + |cancelOrder| <= j < |p| ==> p[j] == ReleaseSlot(releaseOrder[j - (2 + 2 * a + |cancelOrder|)]))
  {
    var a := if hasAppointments then 1 else 0;
    var head := [SelectClientAppointments(clientId)]
                + (if hasAppointments then [DeleteReviewsOfClientAppointments(clientId)] else [])
                + [DeleteReviewsByClient(clientId)];
    var mid := head + Cancels(cancelOrder) + (if hasAppointments then [DeleteClientAppointments(clientId)] else []);
    assert |head| == 2 + a && |mid| == 2 + 2 * a + |cancelOrder|;
    assert CleanupPlan(clientId, hasAppointments, cancelOrder, releaseOrder) == mid + Releases(releaseOrder);
  }

  /** Every finite set of ids can be listed once each, in some order. */
  lemma {:induction false} SetHasOrder(s: set<int>)
    ensures exists o :: Distinct(o) && forall x :: x in o <==> x in s
    decreases |s|
  {
    if s != {} {
      NonEmptyHasElement(s);
      var x :| x in s;
      SetHasOrder(s - {x});
      var o :| Distinct(o) && forall y :: y in o <==> y in s - {x};
      DistinctConcat([x], o);
      assert forall y :: y in [x] + o <==> y in s;
    } else {
      assert Distinct<int>([]) && forall x :: x in [] <==> x in s;
    }
  }

  /** A cleanup whose first query is rejected fails with nothing changed. */
  lemma FirstCommandRejected(t: Tables, clientId: int, hasAppointments: bool, cancelOrder: seq<int>, releaseOrder: seq<int>,
                             accepts: Command -> bool)
    requires !accepts(SelectClientAppointments(clientId))
    ensures Run(t, CleanupPlan(clientId, hasAppointments, cancelOrder, releaseOrder), accepts) == (false, t)
  {
    CleanupPlanAt(clientId, hasAppointments, cancelOrder, releaseOrder);
  }

  /**
   * The orders a cleanup of `t` may use: each cancellable appointment is
   * cancelled once, each referenced slot is released once, in whatever
   * order the rows and the set arrive.
   */
  ghost predicate IsCleanupOrder(t: Tables, clientId: int, hasAppointments: bool, cancelOrder: seq<int>, releaseOrder: seq<int>) {
    && hasAppointments == (ClientAppointmentIds(t, clientId) != {})
    && Distinct(cancelOrder) && (forall id :: id in cancelOrder <==> id in CancellableIds(t, clientId))
    && Distinct(releaseOrder) && (forall s :: s in releaseOrder <==> s in ClientSlots(t, clientId))
  }

  /**
   * The state a complete cleanup leaves: none of the client's
   * appointments, none of their reviews or reviews of their appointments,
   * every slot they referenced free; nothing else touched.
   */
  function Cleaned(t: Tables, clientId: int): Tables {
    var clientSlots := ClientSlots(t, clientId);
    t.(appointments := map id | id in t.appointments && t.appointments[id].clientId != clientId :: t.appointments[id],
       reviews := map id | id in t.reviews && t.reviews[id].clientId != clientId && !OfClientAppointment(t, t.reviews[id], clientId)
                        :: t.reviews[id],
       slots := map s | s in t.slots :: if s in clientSlots then Free(t.slots[s]) else t.slots[s])
  }

  /** What the cleaned state keeps, removes and changes. */
  lemma CleanedSpec(t: Tables, clientId: int)
    ensures var r := Cleaned(t, clientId);
            && (forall id :: id in r.appointments ==> r.appointments[id].clientId != clientId)
            && (forall id :: id in r.reviews ==> r.reviews[id].clientId != clientId)
            && (forall id :: id in r.reviews ==>
                  !(r.reviews[id].appointmentId.Some? && r.reviews[id].appointmentId.value in ClientAppointmentIds(t, clientId)))
            && (forall s :: s in ClientSlots(t, clientId) && s in r.slots ==> !r.slots[s].isBooked)
            && (forall id :: id in t.appointments && t.appointments[id].clientId != clientId ==>
                  id in r.appointments && r.appointments[id] == t.appointments[id])
            && (forall id :: id in t.reviews && t.reviews[id].clientId != clientId && !OfClientAppointment(t, t.reviews[id], clientId) ==>
                  id in r.reviews && r.reviews[id] == t.reviews[id])
            && r.appointments.Keys <= t.appointments.Keys && r.reviews.Keys <= t.reviews.Keys
            && r.slots.Keys == t.slots.Keys
            && (forall s :: s in t.slots ==> r.slots[s].(isBooked := t.slots[s].isBooked) == t.slots[s])
            && (forall s :: s in t.slots && s !in ClientSlots(t, clientId) ==> r.slots[s] == t.slots[s])
            && r.masters == t.masters && r.assignments == t.assignments
  {
  }

  /**
   * How the cancellations change the state: only the status of the
   * client's appointments and the booked flag of the client's slots.
   */
  ghost predicate CancelledOnly(t0: Tables, t: Tables, clientId: int) {
    && t.reviews == t0.reviews && t.masters == t0.masters && t.assignments == t0.assignments
    && t.appointments.Keys == t0.appointments.Keys
    && (forall id :: id in t0.appointments ==>
          && t.appointments[id].clientId == t0.appointments[id].clientId
          && t.appointments[id].slotId == t0.appointments[id].slotId
          && (t0.appointments[id].clientId != clientId ==> t.appointments[id] == t0.appointments[id]))
    && t.slots.Keys == t0.slots.Keys
    && (forall s :: s in t0.slots ==>
          t.slots[s] == t0.slots[s] || (s in ClientSlots(t0, clientId) && t.slots[s] == Free(t0.slots[s])))
  }

  lemma CancelStep(t0: Tables, t: Tables, clientId: int, id: int)
    requires CancelledOnly(t0, t, clientId)
    requires id in ClientAppointmentIds(t0, clientId)
    ensures CancelledOnly(t0, Apply(t, CancelAppointment(id)), clientId)
  {
    var a := t.appointments[id];
    if a.slotId.Some? && a.slotId.value in t.slots {
      assert a.slotId.value in ClientSlots(t0, clientId);
    }
  }

  lemma {:induction false} CancelsEffect(t0: Tables, t: Tables, clientId: int, ids: seq<int>)
    requires CancelledOnly(t0, t, clientId)
    requires forall id :: id in ids ==> id in ClientAppointmentIds(t0, clientId)
    ensures CancelledOnly(t0, ApplyAll(t, Cancels(ids)), clientId)
    decreases |ids|
  {
    if ids != [] {
      CancelStep(t0, t, clientId, ids[0]);
      assert Cancels(ids)[1..] == Cancels(ids[1..]);
      CancelsEffect(t0, Apply(t, CancelAppointment(ids[0])), clientId, ids[1..]);
    }
  }

  /** Releasing a list of slots frees exactly those slots. */
  lemma {:induction false} ReleasesEffect(t: Tables, ids: seq<int>)
    ensures var u := ApplyAll(t, Releases(ids));
            && u == t.(slots := u.slots)
            && u.slots.Keys == t.slots.Keys
            && forall s :: s in t.slots ==> u.slots[s] == if s in ids then Free(t.slots[s]) else t.slots[s]
    decreases |ids|
  {
    if ids != [] {
      assert Releases(ids)[1..] == Releases(ids[1..]);
      ReleasesEffect(Apply(t, ReleaseSlot(ids[0])), ids[1..]);
    }
  }

  /** When every command is accepted, the cleanup reaches exactly the cleaned state. */
  lemma CleanupPlanOutcome(t: Tables, clientId: int, hasAppointments: bool, cancelOrder: seq<int>, releaseOrder: seq<int>)
    requires IsCleanupOrder(t, clientId, hasAppointments, cancelOrder, releaseOrder)
    ensures ApplyAll(t, CleanupPlan(clientId, hasAppointments, cancelOrder, releaseOrder)) == Cleaned(t, clientId)
  {
    var head := [SelectClientAppointments(clientId)]
                + (if hasAppointments then [DeleteReviewsOfClientAppointments(clientId)] else [])
                + [DeleteReviewsByClient(clientId)];
    var delete := if hasAppointments then [DeleteClientAppointments(clientId)] else [];
    assert CleanupPlan(clientId, hasAppointments, cancelOrder, releaseOrder)
           == head + Cancels(cancelOrder) + delete + Releases(releaseOrder);
    ApplyAllConcat(t, head + Cancels(cancelOrder) + delete, Releases(releaseOrder));
    ApplyAllConcat(t, head + Cancels(cancelOrder), delete);
    ApplyAllConcat(t, head, Cancels(cancelOrder));

    var goal := Cleaned(t, clientId);
    var t3 := ApplyAll(t, head);
    ReviewsRemoved(t, clientId, hasAppointments);
    var t4 := ApplyAll(t3, Cancels(cancelOrder));
    CancelsEffect(t3, t3, clientId, cancelOrder);
    AfterCancels(t, t4, clientId, hasAppointments);
    var t5 := ApplyAll(t4, delete);
    assert t5.slots == t4.slots;
    assert ClientSlots(t3, clientId) == ClientSlots(t, clientId) by {
      assert t3.appointments == t.appointments;
    }
    ReleasesEffect(t5, releaseOrder);
    SlotsAfterReleases(t, t5, ApplyAll(t5, Releases(releaseOrder)), clientId, releaseOrder);
  }

  /** After the cancellations, deleting the client's appointments leaves those a cleaned state keeps. */
  lemma AfterCancels(t: Tables, t4: Tables, clientId: int, hasAppointments: bool)
    requires hasAppointments == (ClientAppointmentIds(t, clientId) != {})
    requires CancelledOnly(t.(reviews := Cleaned(t, clientId).reviews), t4, clientId)
    ensures var t5 := ApplyAll(t4, if hasAppointments then [DeleteClientAppointments(clientId)] else []);
            t5 == Cleaned(t, clientId).(slots := t4.slots)
            && CancelledOnly(t.(reviews := Cleaned(t, clientId).reviews), t4, clientId)
  {
    var goal := Cleaned(t, clientId);
    var t5 := ApplyAll(t4, if hasAppointments then [DeleteClientAppointments(clientId)] else []);
    if hasAppointments {
      var d := [DeleteClientAppointments(clientId)];
      assert d[1..] == [];
      assert t5 == ApplyAll(Apply(t4, d[0]), d[1..]);
    } else {
      forall id | id in t.appointments ensures t.appointments[id].clientId != clientId {
        assert id !in ClientAppointmentIds(t, clientId);
      }
      assert t5 == t4;
    }
    forall id ensures id in t5.appointments <==> id in goal.appointments {
      if id in t.appointments {
        assert t4.appointments[id].clientId == t.appointments[id].clientId;
      }
    }
    forall id | id in goal.appointments ensures t5.appointments[id] == goal.appointments[id] {
      assert t4.appointments[id] == t.appointments[id];
    }
    assert t5.appointments == goal.appointments;
  }

  /** Releasing every referenced slot, after the cancellations freed some of them, frees exactly those slots. */
  lemma SlotsAfterReleases(t: Tables, t5: Tables, t6: Tables, clientId: int, releaseOrder: seq<int>)
    requires forall s :: s in releaseOrder <==> s in ClientSlots(t, clientId)
    requires t5 == Cleaned(t, clientId).(slots := t5.slots)
    requires t5.slots.Keys == t.slots.Keys
    requires forall s :: s in t.slots ==>
               t5.slots[s] == t.slots[s] || (s in ClientSlots(t, clientId) && t5.slots[s] == Free(t.slots[s]))
    requires t6 == t5.(slots := t6.slots) && t6.slots.Keys == t5.slots.Keys
    requires forall s :: s in t5.slots ==> t6.slots[s] == if s in releaseOrder then Free(t5.slots[s]) else t5.slots[s]
    ensures t6 == Cleaned(t, clientId)
  {
    var goal := Cleaned(t, clientId);
    forall s | s in t.slots ensures t6.slots[s] == goal.slots[s] {
      if s in ClientSlots(t, clientId) {
        assert Free(Free(t.slots[s])) == Free(t.slots[s]);
      }
    }
    assert t6.slots == goal.slots;
  }

  /** The two review deletions leave exactly the reviews a cleaned state keeps. */
  lemma ReviewsRemoved(t: Tables, clientId: int, hasAppointments: bool)
    requires hasAppointments == (ClientAppointmentIds(t, clientId) != {})
    ensures ApplyAll(t, [SelectClientAppointments(clientId)]
                        + (if hasAppointments then [DeleteReviewsOfClientAppointments(clientId)] else [])
                        + [DeleteReviewsByClient(clientId)])
            == t.(reviews := Cleaned(t, clientId).reviews)
  {
    var middle := if hasAppointments then [DeleteReviewsOfClientAppointments(clientId)] else [];
    ApplyAllConcat(t, [SelectClientAppointments(clientId)] + middle, [DeleteReviewsByClient(clientId)]);
    ApplyAllConcat(t, [SelectClientAppointments(clientId)], middle);
    var t2 := ApplyAll(t, [SelectClientAppointments(clientId)] + middle);
    if !hasAppointments {
      forall id | id in t.reviews ensures !OfClientAppointment(t, t.reviews[id], clientId) {
        var a := t.reviews[id].appointmentId;
        if a.Some? && a.value in t.appointments {
          assert a.value !in ClientAppointmentIds(t, clientId);
        }
      }
    }
    assert t2.appointments == t.appointments;
  }

  /**
   * What every stage of a cleanup leaves alone: other clients'
   * appointments, reviews neither by the client nor of the client's
   * appointments, slots the client never referenced, masters and
   * assignments. An appointment that is still there keeps its client and
   * its slot.
   */
  ghost predicate Untouched(t: Tables, u: Tables, clientId: int) {
    && u.masters == t.masters && u.assignments == t.assignments
    && (forall id :: id in t.appointments && t.appointments[id].clientId != clientId ==>
          id in u.appointments && u.appointments[id] == t.appointments[id])
    && (forall id :: id in u.appointments ==>
          && id in t.appointments
          && u.appointments[id].clientId == t.appointments[id].clientId
          && u.appointments[id].slotId == t.appointments[id].slotId)
    && (forall id :: id in t.reviews && t.reviews[id].clientId != clientId && !OfClientAppointment(t, t.reviews[id], clientId) ==>
          id in u.reviews && u.reviews[id] == t.reviews[id])
    && u.slots.Keys == t.slots.Keys
    && (forall s :: s in t.slots && s !in ClientSlots(t, clientId) ==> u.slots[s] == t.slots[s])
  }

  /** The commands a cleanup of the client in state `t` may issue. */
  ghost predicate PlanCommand(t: Tables, clientId: int, c: Command) {
    match c
    case SelectClientAppointments(x) => x == clientId
    case DeleteReviewsOfClientAppointments(x) => x == clientId
    case DeleteReviewsByClient(x) => x == clientId
    case CancelAppointment(id) => id in ClientAppointmentIds(t, clientId)
    case DeleteClientAppointments(x) => x == clientId
    case ReleaseSlot(s) => s in ClientSlots(t, clientId)
    case _ => false
  }

  /** A review a cleanup leaves alone is not tied to the client's remaining appointments either. */
  lemma ReviewsOfUnrelated(t: Tables, u: Tables, clientId: int)
    requires Untouched(t, u, clientId)
    ensures forall id :: id in t.reviews && t.reviews[id].clientId != clientId && !OfClientAppointment(t, t.reviews[id], clientId) ==>
              !OfClientAppointment(u, u.reviews[id], clientId)
  {
    forall id | id in t.reviews && t.reviews[id].clientId != clientId && !OfClientAppointment(t, t.reviews[id], clientId)
      ensures !OfClientAppointment(u, u.reviews[id], clientId)
    {
      var r := t.reviews[id];
      assert u.reviews[id] == r;
      if r.appointmentId.Some? && r.appointmentId.value in u.appointments {
        var a := r.appointmentId.value;
        var ua := u.appointments[a];
        assert a in t.appointments && ua.clientId == t.appointments[a].clientId;
      }
    }
  }

  /** One cleanup command keeps everything a cleanup leaves alone. */
  lemma UntouchedStep(t: Tables, u: Tables, clientId: int, c: Command)
    requires Untouched(t, u, clientId) && PlanCommand(t, clientId, c)
    ensures Untouched(t, Apply(u, c), clientId)
  {
    var v := Apply(u, c);
    match c {
      case DeleteReviewsOfClientAppointments(_) =>
        ReviewsOfUnrelated(t, u, clientId);
      case CancelAppointment(id) =>
        if id in u.appointments {
          var a := u.appointments[id];
          if a.slotId.Some? {
            assert a.slotId.value in ClientSlots(t, clientId);
          }
        }
      case _ =>
    }
  }

  /** A run of cleanup commands, all accepted, keeps everything a cleanup leaves alone. */
  lemma {:induction false} UntouchedAll(t: Tables, u: Tables, clientId: int, cmds: seq<Command>)
    requires Untouched(t, u, clientId)
    requires forall c :: c in cmds ==> PlanCommand(t, clientId, c)
    ensures Untouched(t, ApplyAll(u, cmds), clientId)
    decreases |cmds|
  {
    if cmds != [] {
      assert forall c :: c in cmds[1..] ==> c in cmds;
      UntouchedStep(t, u, clientId, cmds[0]);
      UntouchedAll(t, Apply(u, cmds[0]), clientId, cmds[1..]);
    }
  }

  /** A run of cleanup commands that stops at a rejection keeps everything a cleanup leaves alone. */
  lemma {:induction false} UntouchedRun(t: Tables, u: Tables, clientId: int, cmds: seq<Command>, accepts: Command -> bool)
    requires Untouched(t, u, clientId)
    requires forall c :: c in cmds ==> PlanCommand(t, clientId, c)
    ensures Untouched(t, Run(u, cmds, accepts).1, clientId)
    decreases |cmds|
  {
    if cmds != [] && accepts(cmds[0]) {
      assert forall c :: c in cmds[1..] ==> c in cmds;
      UntouchedStep(t, u, clientId, cmds[0]);
      UntouchedRun(t, Apply(u, cmds[0]), clientId, cmds[1..], accepts);
    }
  }

  /** Cancelling only the client's appointments issues only cleanup commands. */
  lemma CancelsArePlanCommands(t: Tables, clientId: int, ids: seq<int>)
    requires forall id :: id in ids <==> id in CancellableIds(t, clientId)
    ensures forall c :: c in Cancels(ids) ==> PlanCommand(t, clientId, c)
  {
    forall c | c in Cancels(ids) ensures PlanCommand(t, clientId, c) {
      var i :| 0 <= i < |ids| && Cancels(ids)[i] == c;
      assert ids[i] in CancellableIds(t, clientId);
    }
  }

  /** Releasing only the client's slots issues only cleanup commands. */
  lemma ReleasesArePlanCommands(t: Tables, clientId: int, ids: seq<int>)
    requires forall s :: s in ids <==> s in ClientSlots(t, clientId)
    ensures forall c :: c in Releases(ids) ==> PlanCommand(t, clientId, c)
  {
    forall c | c in Releases(ids) ensures PlanCommand(t, clientId, c) {
      var i :| 0 <= i < |ids| && Releases(ids)[i] == c;
      assert ids[i] in ClientSlots(t, clientId);
    }
  }

  /** Every command of a cleanup plan for `t` is one a cleanup may issue. */
  lemma PlanCommands(t: Tables, clientId: int, hasAppointments: bool, cancelOrder: seq<int>, releaseOrder: seq<int>)
    requires IsCleanupOrder(t, clientId, hasAppointments, cancelOrder, releaseOrder)
    ensures forall c :: c in CleanupPlan(clientId, hasAppointments, cancelOrder, releaseOrder) ==> PlanCommand(t, clientId, c)
  {
    PlanMembers(clientId, hasAppointments, cancelOrder, releaseOrder);
    CancelsArePlanCommands(t, clientId, cancelOrder);
    ReleasesArePlanCommands(t, clientId, releaseOrder);
  }

  /** A cleanup plan holds only the client's statements, its cancellations and its releases. */
  lemma PlanMembers(clientId: int, hasAppointments: bool, cancelOrder: seq<int>, releaseOrder: seq<int>)
    ensures forall c :: c in CleanupPlan(clientId, hasAppointments, cancelOrder, releaseOrder) ==>
              || c in {SelectClientAppointments(clientId), DeleteReviewsOfClientAppointments(clientId),
                       DeleteReviewsByClient(clientId), DeleteClientAppointments(clientId)}
              || c in Cancels(cancelOrder) || c in Releases(releaseOrder)
  {
    var head := [SelectClientAppointments(clientId)]
                + (if hasAppointments then [DeleteReviewsOfClientAppointments(clientId)] else [])
                + [DeleteReviewsByClient(clientId)];
    var delete := if hasAppointments then [DeleteClientAppointments(clientId)] else [];
    assert CleanupPlan(clientId, hasAppointments, cancelOrder, releaseOrder)
           == head + Cancels(cancelOrder) + delete + Releases(releaseOrder);
  }

  /**
   * Whatever prefix of a cleanup has been carried out, everything a
   * cleanup leaves alone is unchanged.
   */
  lemma CleanupPrefixUntouched(t: Tables, clientId: int, hasAppointments: bool, cancelOrder: seq<int>, releaseOrder: seq<int>,
                               k: nat)
    requires IsCleanupOrder(t, clientId, hasAppointments, cancelOrder, releaseOrder)
    requires k <= |CleanupPlan(clientId, hasAppointments, cancelOrder, releaseOrder)|
    ensures Untouched(t, ApplyAll(t, CleanupPlan(clientId, hasAppointments, cancelOrder, releaseOrder)[..k]), clientId)
  {
    var p := CleanupPlan(clientId, hasAppointments, cancelOrder, releaseOrder);
    PlanCommands(t, clientId, hasAppointments, cancelOrder, releaseOrder);
    assert forall c :: c in p[..k] ==> c in p;
    UntouchedAll(t, t, clientId, p[..k]);
  }

  /** A cleanup that stops at a rejected command has left everything it leaves alone unchanged. */
  lemma CleanupRunUntouched(t: Tables, clientId: int, hasAppointments: bool, cancelOrder: seq<int>, releaseOrder: seq<int>,
                            accepts: Command -> bool)
    requires IsCleanupOrder(t, clientId, hasAppointments, cancelOrder, releaseOrder)
    ensures Untouched(t, Run(t, CleanupPlan(clientId, hasAppointments, cancelOrder, releaseOrder), accepts).1, clientId)
  {
    PlanCommands(t, clientId, hasAppointments, cancelOrder, releaseOrder);
    UntouchedRun(t, t, clientId, CleanupPlan(clientId, hasAppointments, cancelOrder, releaseOrder), accepts);
  }
}
