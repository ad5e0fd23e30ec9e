/**
 * Replacing the set of masters assigned to a service within one salon:
 * the salon's old assignments for the service are deleted, then one row
 * is inserted per chosen master, in the order given.
 */
module MasterAssignments {
  import opened Schema

  function Inserts(masterIds: seq<int>, serviceId: int): (cmds: seq<Command>)
    ensures |cmds| == |masterIds|
    ensures forall i :: 0 <= i < |masterIds| ==> cmds[i] == InsertAssignment(masterIds[i], serviceId)
  {
    seq(|masterIds|, i requires 0 <= i < |masterIds| => InsertAssignment(masterIds[i], serviceId))
  }

  /** The commands of a save, in the order they are issued. */
  function SavePlan(salonId: int, serviceId: int, masterIds: seq<int>): seq<Command> {
    [DeleteServiceAssignments(salonId, serviceId)] + Inserts(masterIds, serviceId)
  }

  /**
   * The state a complete save leaves: the service is assigned to exactly
   * the chosen masters among the salon's masters, and every other
   * assignment (other services, other salons' masters) is kept.
   */
  function Reassigned(t: Tables, salonId: int, serviceId: int, masterIds: seq<int>): (r: Tables)
    ensures forall m :: m in masterIds ==> Assignment(m, serviceId) in r.assignments
    ensures forall m :: InSalon(t, m, salonId) ==> (Assignment(m, serviceId) in r.assignments <==> m in masterIds)
    ensures forall a: Assignment :: a.serviceId != serviceId ==> (a in r.assignments <==> a in t.assignments)
    ensures forall a: Assignment :: !InSalon(t, a.masterId, salonId) && a.masterId !in masterIds ==>
              (a in r.assignments <==> a in t.assignments)
    ensures r == t.(assignments := r.assignments)
  {
    t.(assignments := (set a | a in t.assignments && !(a.serviceId == serviceId && InSalon(t, a.masterId, salonId)))
                      + (set m | m in masterIds :: Assignment(m, serviceId)))
  }

  /** Inserting rows one after another adds exactly those rows. */
  lemma {:induction false} InsertsEffect(t: Tables, masterIds: seq<int>, serviceId: int)
    ensures ApplyAll(t, Inserts(masterIds, serviceId))
            == t.(assignments := t.assignments + set m | m in masterIds :: Assignment(m, serviceId))
    decreases |masterIds|
  {
    if masterIds == [] {
      assert Inserts(masterIds, serviceId) == [];
      assert (set m | m in masterIds :: Assignment(m, serviceId)) == {};
    } else {
      var u := Apply(t, InsertAssignment(masterIds[0], serviceId));
      assert Inserts(masterIds, serviceId)[1..] == Inserts(masterIds[1..], serviceId);
      InsertsEffect(u, masterIds[1..], serviceId);
      assert (set m | m in masterIds :: Assignment(m, serviceId))
             == {Assignment(masterIds[0], serviceId)} + set m | m in masterIds[1..] :: Assignment(m, serviceId);
    }
  }

  /** When every command is accepted, a save reaches exactly the reassigned state. */
  lemma SavePlanOutcome(t: Tables, salonId: int, serviceId: int, masterIds: seq<int>)
    ensures ApplyAll(t, SavePlan(salonId, serviceId, masterIds)) == Reassigned(t, salonId, serviceId, masterIds)
  {
    var del := DeleteServiceAssignments(salonId, serviceId);
    ApplyAllConcat(t, [del], Inserts(masterIds, serviceId));
    assert ApplyAll(t, [del]) == ApplyAll(Apply(t, del), []);
    InsertsEffect(Apply(t, del), masterIds, serviceId);
  }

  /** Saving the same choice twice in a row changes nothing the second time. */
  lemma ReassignIdempotent(t: Tables, salonId: int, serviceId: int, masterIds: seq<int>)
    ensures var u := Reassigned(t, salonId, serviceId, masterIds);
            Reassigned(u, salonId, serviceId, masterIds) == u
  {
    var u := Reassigned(t, salonId, serviceId, masterIds);
    var v := Reassigned(u, salonId, serviceId, masterIds);
    forall a: Assignment ensures a in v.assignments <==> a in u.assignments {
      if a.serviceId == serviceId && InSalon(t, a.masterId, salonId) {
        assert InSalon(u, a.masterId, salonId);
      }
    }
    assert v.assignments == u.assignments;
  }
}
