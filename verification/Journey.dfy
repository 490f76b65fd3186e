/**
  The workflow journeys of the AC catalogue: from one base journey, either the diagnostic segment is
  contracted away (fixed-price jobs) or an estimate approval is spliced in after the inspection.
 */
module Journey {
  import opened Wrappers

  datatype Step = Step(
    key: string, name: string, mapsTo: Option<string>, ownerApp: string, ownerRole: string,
    customerVisible: bool, tenantVisible: bool, staffVisible: bool,
    requiresNote: bool, requiresPhoto: bool, requiresApproval: bool,
    slaMinutes: Option<nat>, displayOrder: nat)

  datatype Transition = Transition(
    from: string, to: string, action: string, role: string,
    requiresReason: bool, notifies: bool, automatic: bool)

  datatype Plan = Plan(steps: seq<Step>, transitions: seq<Transition>)

  const ARRIVED := "arrived"
  const INSPECTION_STARTED := "inspection_started"
  const INSPECTION_DONE := "inspection_done"
  const WORK_STARTED := "work_started"
  const ESTIMATE := "estimate_approval"

  const INSPECTION: set<string> := {INSPECTION_STARTED, INSPECTION_DONE}

  const START_WORK := Transition(ARRIVED, WORK_STARTED, "Start Work", "technician", false, false, false)
  const SUBMIT := Transition(INSPECTION_DONE, ESTIMATE, "Submit Estimate", "technician", false, true, false)
  const START_APPROVED := Transition(ESTIMATE, WORK_STARTED, "Start Approved Work", "technician", false, true, false)

  function EstimateStep(order: nat): Step {
    Step(ESTIMATE, "Estimate Approval", Some("quote_required"), "customer_app", "customer",
         true, true, true, false, false, true, None, order)
  }

  // ---- The transformation ---------------------------------------------------------------------------

  function KeepSteps(steps: seq<Step>, drop: set<string>): seq<Step> {
    if steps == [] then []
    else (if steps[0].key in drop then [] else [steps[0]]) + KeepSteps(steps[1..], drop)
  }

  /** The transitions of which neither end is dropped. */
  function KeepApart(ts: seq<Transition>, drop: set<string>): seq<Transition> {
    if ts == [] then []
    else (if ts[0].from in drop || ts[0].to in drop then [] else [ts[0]]) + KeepApart(ts[1..], drop)
  }

  /** The transitions other than `from` to `to`. */
  function KeepOthers(ts: seq<Transition>, from: string, to: string): seq<Transition> {
    if ts == [] then []
    else (if ts[0].from == from && ts[0].to == to then [] else [ts[0]]) + KeepOthers(ts[1..], from, to)
  }

  function Renumbered(steps: seq<Step>): (r: seq<Step>)
    ensures |r| == |steps|
    ensures forall i :: 0 <= i < |r| ==> r[i] == steps[i].(displayOrder := i + 1)
  {
    seq(|steps|, i requires 0 <= i < |steps| => steps[i].(displayOrder := i + 1))
  }

  /** The first step that maps to the status "inspection_done", or the length if there is none. */
  function Inspected(steps: seq<Step>): (k: nat)
    ensures k <= |steps|
    ensures k < |steps| ==> steps[k].mapsTo == Some(INSPECTION_DONE)
    ensures forall i :: 0 <= i < k ==> steps[i].mapsTo != Some(INSPECTION_DONE)
  {
    if steps == [] || steps[0].mapsTo == Some(INSPECTION_DONE) then 0 else 1 + Inspected(steps[1..])
  }

  function Contracted(base: Plan): Plan {
    Plan(Renumbered(KeepSteps(base.steps, INSPECTION)), KeepApart(base.transitions, INSPECTION) + [START_WORK])
  }

  function Spliced(base: Plan): Plan {
    var k := Inspected(base.steps);
    Plan(if k < |base.steps| then Renumbered(base.steps[..k + 1] + [EstimateStep(k + 2)] + base.steps[k + 1..])
         else base.steps,
         KeepOthers(base.transitions, INSPECTION_DONE, WORK_STARTED) + [SUBMIT, START_APPROVED])
  }

  /** `_workflow_journey`; None is the StopIteration raised when no step maps to "inspection_done". */
  method WorkflowJourney(base: Plan, quoteApprovalRequired: bool) returns (plan: Option<Plan>)
    ensures !quoteApprovalRequired ==> plan == Some(Contracted(base))
    ensures quoteApprovalRequired ==>
              plan == if Inspected(base.steps) < |base.steps| then Some(Spliced(base)) else None
  {
    if !quoteApprovalRequired {
      var steps := Renumber(KeepSteps(base.steps, INSPECTION));
      return Some(Plan(steps, KeepApart(base.transitions, INSPECTION) + [START_WORK]));
    }
    var index := 0;
    while index < |base.steps| && base.steps[index].mapsTo != Some(INSPECTION_DONE)
      invariant 0 <= index <= |base.steps|
      invariant forall i :: 0 <= i < index ==> base.steps[i].mapsTo != Some(INSPECTION_DONE)
    {
      index := index + 1;
    }
    if index == |base.steps| {
      return None;
    }
    var insertion := index + 1;
    var steps := base.steps[..insertion] + [EstimateStep(insertion + 1)] + base.steps[insertion..];
    steps := Renumber(steps);
    var transitions := KeepOthers(base.transitions, INSPECTION_DONE, WORK_STARTED);
    plan := Some(Plan(steps, transitions + [SUBMIT, START_APPROVED]));
  }

  /** The numbering loop. */
  method Renumber(steps: seq<Step>) returns (r: seq<Step>)
    ensures r == Renumbered(steps)
  {
    r := steps;
    for i := 0 to |steps|
      invariant |r| == |steps|
      invariant forall k :: 0 <= k < i ==> r[k] == steps[k].(displayOrder := k + 1)
      invariant forall k :: i <= k < |steps| ==> r[k] == steps[k]
    {
      r := r[i := r[i].(displayOrder := i + 1)];
    }
  }

  // ---- Chains ----------------------------------------------------------------------------------------

  type Link = (string, string)

  function Keys(steps: seq<Step>): (keys: seq<string>)
    ensures |keys| == |steps|
    ensures forall i :: 0 <= i < |keys| ==> keys[i] == steps[i].key
  {
    seq(|steps|, i requires 0 <= i < |steps| => steps[i].key)
  }

  predicate Distinct(keys: seq<string>) {
    forall i, k :: 0 <= i < k < |keys| ==> keys[i] != keys[k]
  }

  function LinkAt(keys: seq<string>, i: nat): Link
    requires i + 1 < |keys|
  {
    (keys[i], keys[i + 1])
  }

  function Links(keys: seq<string>): set<Link> {
    set i | 0 <= i < |keys| - 1 :: LinkAt(keys, i)
  }

  function LinkOf(t: Transition): Link {
    (t.from, t.to)
  }

  function Edges(ts: seq<Transition>): set<Link> {
    set t | t in ts :: LinkOf(t)
  }

  predicate NoRepeats(ts: seq<Transition>) {
    forall i, k :: 0 <= i < k < |ts| ==> LinkOf(ts[i]) != LinkOf(ts[k])
  }

  /** Each declared step leads to the next one, once, and nowhere else. */
  predicate IsChain(p: Plan) {
    Distinct(Keys(p.steps)) && Edges(p.transitions) == Links(Keys(p.steps)) && NoRepeats(p.transitions)
  }

  /** The four steps of the diagnostic segment stand together at position `p`. */
  predicate HasSegment(base: Plan, p: nat) {
    p + 4 <= |base.steps| &&
    Keys(base.steps)[p..p + 4] == [ARRIVED, INSPECTION_STARTED, INSPECTION_DONE, WORK_STARTED]
  }

  lemma SegmentAt(base: Plan, p: nat)
    requires HasSegment(base, p)
    ensures var keys := Keys(base.steps);
            keys[p] == ARRIVED && keys[p + 1] == INSPECTION_STARTED
            && keys[p + 2] == INSPECTION_DONE && keys[p + 3] == WORK_STARTED
  {
    var keys := Keys(base.steps);
    var four := keys[p..p + 4];
    assert four[0] == keys[p] && four[1] == keys[p + 1] && four[2] == keys[p + 2] && four[3] == keys[p + 3];
  }

  lemma {:induction false} KeepApartIs(ts: seq<Transition>, drop: set<string>)
    ensures forall t :: t in KeepApart(ts, drop) <==> t in ts && t.from !in drop && t.to !in drop
    ensures NoRepeats(ts) ==> NoRepeats(KeepApart(ts, drop))
  {
    if ts != [] {
      KeepApartIs(ts[1..], drop);
    }
  }

  lemma {:induction false} KeepOthersIs(ts: seq<Transition>, from: string, to: string)
    ensures forall t :: t in KeepOthers(ts, from, to) <==> t in ts && LinkOf(t) != (from, to)
    ensures NoRepeats(ts) ==> NoRepeats(KeepOthers(ts, from, to))
  {
    if ts != [] {
      KeepOthersIs(ts[1..], from, to);
    }
  }
}
