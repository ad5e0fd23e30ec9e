/**
 * The relations the booking code reads and writes, as values, and the
 * SQL commands it issues, each with its effect on those relations.
 * A command may be rejected by the store (a constraint, a lost
 * connection, a failing stored function); a sequence of commands is run
 * the way the source runs it, stopping at the first rejected one with
 * nothing undone.
 */
module Schema {
  import opened Wrappers
  import opened AppointmentStatus

  /** A row of `appointments`; the status is the raw value the store yields. */
  datatype Appointment = Appointment(clientId: int, slotId: Option<int>, status: Option<string>)

  /** A row of `reviews`. */
  datatype Review = Review(clientId: int, appointmentId: Option<int>)

  /** A row of `schedule_slots`; times are instants on one clock. */
  datatype Slot = Slot(masterId: int, start: int, end: int, isBooked: bool)

  /** A row of `masters`. */
  datatype Master = Master(salonId: int, active: bool)

  /** A row of `master_services`. */
  datatype Assignment = Assignment(masterId: int, serviceId: int)

  /** The relations, each keyed by its id column. */
  datatype Tables = Tables(
    appointments: map<int, Appointment>,
    reviews: map<int, Review>,
    slots: map<int, Slot>,
    masters: map<int, Master>,
    assignments: set<Assignment>)

  /** The commands the core issues, one per SQL statement or stored-function call. */
  datatype Command =
    | SelectClientAppointments(clientId: int)          // reads the client's appointments with their slots and statuses
    | DeleteReviewsOfClientAppointments(clientId: int) // removes the reviews attached to any of the client's appointments
    | DeleteReviewsByClient(clientId: int)             // removes the reviews the client wrote
    | CancelAppointment(appointmentId: int)            // calls the stored cancellation function on one appointment
    | DeleteClientAppointments(clientId: int)          // removes all of the client's appointments
    | ReleaseSlot(slotId: int)                         // clears the booked flag of one slot
    | SelectAppointmentStatus(appointmentId: int)      // reads one appointment's status
    | DeleteServiceAssignments(salonId: int, serviceId: int) // removes the service's links to the salon's masters
    | InsertAssignment(masterId: int, serviceId: int)  // links one master to the service

  /** The slot with its booked flag cleared. */
  function Free(s: Slot): (r: Slot)
    ensures !r.isBooked && r.(isBooked := s.isBooked) == s
  {
    s.(isBooked := false)
  }

  /** Whether the review is tied to one of the client's appointments. */
  predicate OfClientAppointment(t: Tables, r: Review, clientId: int) {
    r.appointmentId.Some? && r.appointmentId.value in t.appointments
    && t.appointments[r.appointmentId.value].clientId == clientId
  }

  /** Whether the master belongs to the salon. */
  predicate InSalon(t: Tables, masterId: int, salonId: int) {
    masterId in t.masters && t.masters[masterId].salonId == salonId
  }

  /**
   * The effect of one accepted command. The stored `cancel_appointment`
   * is taken to set the appointment's status to the cancelled label and
   * clear the booked flag of its slot.
   */
  function Apply(t: Tables, c: Command): (r: Tables)
    ensures c.SelectClientAppointments? || c.SelectAppointmentStatus? ==> r == t
    ensures r.masters == t.masters
    ensures r.appointments.Keys <= t.appointments.Keys && r.reviews.Keys <= t.reviews.Keys
    ensures r.slots.Keys == t.slots.Keys
  {
    match c
    case SelectClientAppointments(_) => t
    case SelectAppointmentStatus(_) => t
    case DeleteReviewsOfClientAppointments(client) =>
      t.(reviews := map r | r in t.reviews && !OfClientAppointment(t, t.reviews[r], client) :: t.reviews[r])
    case DeleteReviewsByClient(client) =>
      t.(reviews := map r | r in t.reviews && t.reviews[r].clientId != client :: t.reviews[r])
    case CancelAppointment(id) =>
      if id !in t.appointments then t
      else
        var a := t.appointments[id];
        t.(appointments := t.appointments[id := a.(status := Some(Cancelled))],
           slots := if a.slotId.Some? && a.slotId.value in t.slots
                    then t.slots[a.slotId.value := Free(t.slots[a.slotId.value])]
                    else t.slots)
    case DeleteClientAppointments(client) =>
      t.(appointments := map id | id in t.appointments && t.appointments[id].clientId != client :: t.appointments[id])
    case ReleaseSlot(s) =>
      if s in t.slots then t.(slots := t.slots[s := Free(t.slots[s])]) else t
    case DeleteServiceAssignments(salon, service) =>
      t.(assignments := set a | a in t.assignments && !(a.serviceId == service && InSalon(t, a.masterId, salon)))
    case InsertAssignment(m, service) =>
      t.(assignments := t.assignments + {Assignment(m, service)})
  }

  /** The effect of a sequence of accepted commands, in order. */
  function ApplyAll(t: Tables, cmds: seq<Command>): Tables
    decreases |cmds|
  {
    if cmds == [] then t else ApplyAll(Apply(t, cmds[0]), cmds[1..])
  }

  /**
   * Runs the commands in order; the first rejected one ends the run with
   * failure, leaving the effects of the earlier ones in place.
   */
  function Run(t: Tables, cmds: seq<Command>, accepts: Command -> bool): (r: (bool, Tables))
    ensures r.0 <==> forall i :: 0 <= i < |cmds| ==> accepts(cmds[i])
    ensures r.0 ==> r.1 == ApplyAll(t, cmds)
    decreases |cmds|
  {
    if cmds == [] then (true, t)
    else if !accepts(cmds[0]) then (false, t)
    else Run(Apply(t, cmds[0]), cmds[1..], accepts)
  }

  lemma {:induction false} ApplyAllSnoc(t: Tables, cmds: seq<Command>, c: Command)
    ensures ApplyAll(t, cmds + [c]) == Apply(ApplyAll(t, cmds), c)
    decreases |cmds|
  {
    if cmds == [] {
      assert cmds + [c] == [c];
    } else {
      assert (cmds + [c])[1..] == cmds[1..] + [c];
      ApplyAllSnoc(Apply(t, cmds[0]), cmds[1..], c);
    }
  }

  lemma {:induction false} ApplyAllConcat(t: Tables, a: seq<Command>, b: seq<Command>)
    ensures ApplyAll(t, a + b) == ApplyAll(ApplyAll(t, a), b)
    decreases |a|
  {
    if a == [] {
      assert a + b == b;
    } else {
      assert (a + b)[1..] == a[1..] + b;
      ApplyAllConcat(Apply(t, a[0]), a[1..], b);
    }
  }

  /**
   * A run succeeds exactly when every command is accepted; otherwise it
   * fails at the first rejected command, and the state is what the
   * commands before it made of it.
   */
  lemma {:induction false} RunStopsAtFirstRejection(t: Tables, cmds: seq<Command>, accepts: Command -> bool, k: nat)
    requires k <= |cmds|
    requires forall i :: 0 <= i < k ==> accepts(cmds[i])
    requires k < |cmds| ==> !accepts(cmds[k])
    ensures Run(t, cmds, accepts) == (k == |cmds|, ApplyAll(t, cmds[..k]))
    decreases k
  {
    if k == 0 {
      assert cmds[..0] == [];
    } else {
      assert cmds[1..][..k - 1] == cmds[..k][1..];
      RunStopsAtFirstRejection(Apply(t, cmds[0]), cmds[1..], accepts, k - 1);
    }
  }

  /** A second cancellation is refused by the gate, and the slot stays free. */
  lemma CancelTwiceRefused(t: Tables, id: int)
    requires id in t.appointments
    ensures var u := Apply(t, CancelAppointment(id));
            && id in u.appointments && !MayCancel(u.appointments[id].status)
            && var s := t.appointments[id].slotId;
               (s.Some? && s.value in t.slots ==> !u.slots[s.value].isBooked)
  {
    var u := Apply(t, CancelAppointment(id));
    assert u.appointments[id].status == Some(Cancelled);
    CancelledLabelRefused();
  }
}
