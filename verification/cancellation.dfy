/**
 * Cancelling a booking from the client's list: the identifier is
 * checked, the current status is read back and passed through the
 * cancellation gate, the user confirms, and only then is the stored
 * `cancel_appointment` called.
 */
module BookingCancellation {
  import opened Wrappers
  import opened AppointmentStatus
  import opened Schema

  /** How an attempt to cancel ends, one value per message the user is shown. */
  datatype CancelOutcome =
    | BadIdentifier  // the selected row carries no integer id
    | NotFound       // the status query failed or returned no row
    | Refused        // the status is not one the gate lets through
    | Declined       // the user answered no to the confirmation
    | Failed         // the stored function was rejected
    | Done           // the appointment was cancelled

  /** The outcome of an attempt on state `t`. */
  function CancelOutcomeOf(t: Tables, appointmentId: Option<int>, confirmed: bool, accepts: Command -> bool): (o: CancelOutcome)
    ensures appointmentId.None? ==> o == BadIdentifier
    ensures (o == Done || o == Failed) ==>
              && appointmentId.Some? && appointmentId.value in t.appointments
              && confirmed && accepts(SelectAppointmentStatus(appointmentId.value))
              && accepts(CancelAppointment(appointmentId.value)) == (o == Done)
    ensures appointmentId.Some? ==>
              (o == NotFound <==> !accepts(SelectAppointmentStatus(appointmentId.value)) || appointmentId.value !in t.appointments)
    ensures appointmentId.Some? && appointmentId.value in t.appointments && accepts(SelectAppointmentStatus(appointmentId.value)) ==>
              && (o == Refused <==> !MayCancel(t.appointments[appointmentId.value].status))
              && (MayCancel(t.appointments[appointmentId.value].status) ==>
                    && (o == Declined <==> !confirmed)
                    && (confirmed ==> (o == Done <==> accepts(CancelAppointment(appointmentId.value))))
                    && (confirmed ==> (o == Done || o == Failed)))
  {
    if appointmentId.None? then BadIdentifier
    else
      var id := appointmentId.value;
      if !accepts(SelectAppointmentStatus(id)) || id !in t.appointments then NotFound
      else if !MayCancel(t.appointments[id].status) then Refused
      else if !confirmed then Declined
      else if !accepts(CancelAppointment(id)) then Failed
      else Done
  }

  /**
   * The stored function is reached only for an appointment whose status
   * normalises to awaiting confirmation or confirmed; a cancelled,
   * completed, blank or unrecognised status is refused before the user
   * is even asked.
   */
  lemma CancelReachedOnlyWhenAllowed(t: Tables, appointmentId: Option<int>, confirmed: bool, accepts: Command -> bool)
    requires appointmentId.Some? && appointmentId.value in t.appointments
    requires accepts(SelectAppointmentStatus(appointmentId.value))
    ensures var o := CancelOutcomeOf(t, appointmentId, confirmed, accepts);
            var status := NormalizeStatus(t.appointments[appointmentId.value].status);
            && ((o == Done || o == Failed) ==> status == Pending || status == Confirmed)
            && (o == Refused <==> status != Pending && status != Confirmed)
            && ((status == Pending || status == Confirmed) && confirmed ==> o == Done || o == Failed)
  {
    CancellationGate(t.appointments[appointmentId.value].status);
  }

  /** Once an attempt succeeds, a second attempt on the same booking is refused. */
  lemma CancelNotRepeated(t: Tables, id: int, confirmed: bool, accepts: Command -> bool)
    requires CancelOutcomeOf(t, Some(id), confirmed, accepts) == Done
    ensures var u := Apply(t, CancelAppointment(id));
            CancelOutcomeOf(u, Some(id), confirmed, accepts) == Refused
  {
    CancelTwiceRefused(t, id);
  }
}
