/** The AC catalogue's own base journey meets what the rewrites need. */
module JourneyCatalogue {
  import opened Wrappers
  import opened Journey
  import opened JourneyShape
  import opened JourneyRuns

  /** `_step`. */
  function NewStep(key: string, name: string, status: Option<string>, app: string, role: string, order: nat,
                   customer: bool, tenant: bool, staff: bool, photo: bool, note: bool, sla: Option<nat>): Step {
    Step(key, name, status, app, role, customer, tenant, staff, note, photo, false, sla, order)
  }

  function Go(from: string, to: string, action: string, role: string, notifies: bool, automatic: bool): Transition {
    Transition(from, to, action, role, false, notifies, automatic)
  }

  const STEPS: seq<Step> := [
    NewStep("booking_created", "Booking Created", None, "customer_app", "customer", 1, true, false, false, false, false, None),
    NewStep("provider_accepted", "Provider Accepted", None, "tenant_app", "tenant_owner", 2, true, true, false, false, false, Some(30)),
    NewStep("technician_assigned", "Technician Assigned", Some("assigned"), "tenant_app", "tenant_manager", 3, true, true, true, false, false, None),
    NewStep("technician_accepted", "Technician Accepted", Some("accepted"), "staff_app", "technician", 4, false, true, true, false, false, None),
    NewStep("on_the_way", "On The Way", Some("on_the_way"), "staff_app", "technician", 5, true, true, true, false, false, None),
    NewStep(ARRIVED, "Arrived", Some("reached_site"), "staff_app", "technician", 6, true, true, true, false, false, None),
    NewStep(INSPECTION_STARTED, "Inspection Started", Some("inspection_started"), "staff_app", "technician", 7, false, true, true, false, false, None),
    NewStep(INSPECTION_DONE, "Inspection Complete", Some("inspection_done"), "staff_app", "technician", 8, false, true, true, false, true, None),
    NewStep(WORK_STARTED, "Work Started", Some("service_started"), "staff_app", "technician", 9, false, true, true, false, false, None),
    NewStep("work_completed", "Work Completed", Some("work_done"), "staff_app", "technician", 10, true, true, true, true, true, None),
    NewStep("job_completed", "Job Completed", Some("completed"), "system", "system", 11, true, true, true, false, false, None),
    NewStep("review_requested", "Review Requested", None, "customer_app", "customer", 12, true, false, false, false, false, None)
  ]

  const TRANSITIONS: seq<Transition> := [
    Go("booking_created", "provider_accepted", "Accept Booking", "tenant_owner", true, false),
    Go("provider_accepted", "technician_assigned", "Assign Technician", "tenant_manager", true, false),
    Go("technician_assigned", "technician_accepted", "Accept Job", "technician", false, false),
    Go("technician_accepted", "on_the_way", "Start Travel", "technician", true, false),
    Go("on_the_way", ARRIVED, "Mark Arrived", "technician", false, false),
    Go(ARRIVED, INSPECTION_STARTED, "Start Inspection", "technician", false, false),
    Go(INSPECTION_STARTED, INSPECTION_DONE, "Finish Inspection", "technician", false, false),
    Go(INSPECTION_DONE, WORK_STARTED, "Start Work", "technician", false, false),
    Go(WORK_STARTED, "work_completed", "Complete Work", "technician", true, false),
    Go("work_completed", "job_completed", "Finalize Job", "technician", true, false),
    Go("job_completed", "review_requested", "Request Review", "system", true, true)
  ]

  const BASE := Plan(STEPS, TRANSITIONS)

  const LENGTHS: seq<nat> := [15, 17, 19, 19, 10, 7, 18, 15, 12, 14, 13, 16]

  lemma KeyLengths()
    ensures |STEPS| == |LENGTHS| && forall i :: 0 <= i < |STEPS| ==> |STEPS[i].key| == LENGTHS[i]
  {
  }

  lemma LengthsTellApart(i: nat, k: nat)
    requires i < k < |LENGTHS| && LENGTHS[i] == LENGTHS[k]
    ensures (i, k) == (0, 7) || (i, k) == (2, 3)
  {
  }

  lemma SpellingsTellApart()
    ensures STEPS[0].key != STEPS[7].key && STEPS[2].key != STEPS[3].key
  {
    assert STEPS[0].key[0] == 'b' && STEPS[7].key[0] == 'i';
    assert STEPS[2].key[12] == 's' && STEPS[3].key[12] == 'c';
  }

  lemma KeysAreDistinct()
    ensures Distinct(Keys(STEPS))
  {
    KeyLengths();
    SpellingsTellApart();
    forall i, k | 0 <= i < k < |STEPS| ensures STEPS[i].key != STEPS[k].key {
      if LENGTHS[i] == LENGTHS[k] {
        LengthsTellApart(i, k);
      }
    }
  }

  lemma TransitionsFollowSteps()
    ensures |TRANSITIONS| == |STEPS| - 1
    ensures forall i :: 0 <= i < |TRANSITIONS| ==> LinkOf(TRANSITIONS[i]) == LinkAt(Keys(STEPS), i)
  {
  }

  /** Transitions listed along distinct steps make a chain. */
  lemma FollowingIsChain(plan: Plan)
    requires Distinct(Keys(plan.steps)) && |plan.transitions| == |plan.steps| - 1
    requires forall i :: 0 <= i < |plan.transitions| ==> LinkOf(plan.transitions[i]) == LinkAt(Keys(plan.steps), i)
    ensures IsChain(plan)
  {
    var keys := Keys(plan.steps);
    forall l | l in Links(keys) ensures l in Edges(plan.transitions) {
      var i :| 0 <= i < |keys| - 1 && LinkAt(keys, i) == l;
      assert plan.transitions[i] in plan.transitions;
    }
  }

  lemma StatusIsMapped()
    ensures Inspected(STEPS) == 7
  {
    assert forall i :: 0 <= i < 7 ==> STEPS[i].mapsTo != Some(INSPECTION_DONE);
    assert STEPS[7].mapsTo == Some(INSPECTION_DONE);
  }

  /** So both variants of the catalogue's journey are chains and have the runs proved of all such bases. */
  lemma CatalogueQualifies()
    ensures HasSegment(BASE, 5) && CanSplice(BASE, 5)
  {
    KeysAreDistinct();
    TransitionsFollowSteps();
    FollowingIsChain(BASE);
    StatusIsMapped();
  }

  /**
    Who moves a job on: the role that owns the next step, all the way to the completed work. The technician
    finalises the job, though the step is the system's, and only the request for a review goes out by itself.
   */
  lemma CatalogueRoles(i: nat)
    requires i < |TRANSITIONS|
    ensures var t, next := TRANSITIONS[i], STEPS[i + 1];
            && LinkOf(t) == (STEPS[i].key, next.key)
            && (t.role == next.ownerRole <==> next.key != "job_completed" && next.key != "review_requested")
            && (next.key == "job_completed" ==> t.role == "technician")
            && (t.automatic <==> next.key == "review_requested")
            && (t.automatic ==> t.role == "system")
            && !t.requiresReason
  {
    KeyLengths();
    TransitionsFollowSteps();
    assert |"job_completed"| == 13 && |"review_requested"| == 16;
    assert "system"[0] == 's' && "technician"[0] == 't' && "customer"[0] == 'c';
  }

  /**
    What the base journey asks for on the way: an answer within 30 minutes from the provider, a note on the
    finished inspection, a note and a photo of the finished work - and no approval anywhere.
   */
  lemma CatalogueAsks(i: nat)
    requires i < |STEPS|
    ensures var s := STEPS[i];
            && (s.slaMinutes == if s.key == "provider_accepted" then Some(30) else None)
            && (s.requiresNote <==> s.key == "inspection_done" || s.key == "work_completed")
            && (s.requiresPhoto <==> s.key == "work_completed")
            && !s.requiresApproval && s.displayOrder == i + 1
  {
    KeyLengths();
    SpellingsTellApart();
    assert |"provider_accepted"| == 17 && |"inspection_done"| == 15 && |"work_completed"| == 14;
  }

  /** One status changed in the catalogue, and the approval variant is no longer a chain. */
  lemma EarlyCatalogueFails()
    ensures !IsChain(Spliced(WithEarlyStatus(BASE, 5)))
  {
    CatalogueQualifies();
    EarlyStatusBreaksSplice(BASE, 5);
  }
}
