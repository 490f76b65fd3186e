/** What the steps and transitions of the two journeys say: who may act, what is asked, and what is kept of the base. */
module JourneyDetails {
  import opened Wrappers
  import opened Journey

  /** The transition touches neither inspection step. */
  predicate AvoidsInspection(t: Transition) {
    && t.from != "inspection_started" && t.from != "inspection_done"
    && t.to != "inspection_started" && t.to != "inspection_done"
  }

  /**
    The contracted journey allows what the base allows away from the inspection, and one thing more: the
    technician starts the work on arrival, without a reason to give and without a notification.
   */
  lemma ContractedAllowsExactly(base: Plan, t: Transition)
    ensures t in Contracted(base).transitions <==>
            || (t in base.transitions && AvoidsInspection(t))
            || t == Transition("arrived", "work_started", "Start Work", "technician", false, false, false)
  {
    KeepApartIs(base.transitions, INSPECTION);
  }

  /**
    The spliced journey allows what the base allows except for work right after the inspection; instead the
    technician submits the estimate and, once it is approved, starts the work, and both steps notify.
   */
  lemma SplicedAllowsExactly(base: Plan, t: Transition)
    ensures t in Spliced(base).transitions <==>
            || (t in base.transitions && !(t.from == "inspection_done" && t.to == "work_started"))
            || t == Transition("inspection_done", "estimate_approval", "Submit Estimate", "technician", false, true, false)
            || t == Transition("estimate_approval", "work_started", "Start Approved Work", "technician", false, true, false)
  {
    KeepOthersIs(base.transitions, INSPECTION_DONE, WORK_STARTED);
    assert SUBMIT in Spliced(base).transitions && START_APPROVED in Spliced(base).transitions by {
      var added := [SUBMIT, START_APPROVED];
      assert added[0] in added && added[1] in added;
    }
  }

  /**
    The spliced steps: behind the first one that maps to "inspection_done" stands the customer's approval,
    which everybody sees; all the others are the base's, in order, with nothing changed but their numbers.
   */
  lemma SplicedStepsAre(base: Plan, k: nat, i: nat)
    requires k < |base.steps| && base.steps[k].mapsTo == Some("inspection_done")
    requires forall m :: 0 <= m < k ==> base.steps[m].mapsTo != Some("inspection_done")
    requires i <= |base.steps|
    ensures var steps := Spliced(base).steps;
            && |steps| == |base.steps| + 1
            && steps[i] ==
               if i <= k then base.steps[i].(displayOrder := i + 1)
               else if i > k + 1 then base.steps[i - 1].(displayOrder := i + 1)
               else Step("estimate_approval", "Estimate Approval", Some("quote_required"), "customer_app", "customer",
                         true, true, true, false, false, true, None, k + 2)
  {
    assert Inspected(base.steps) == k;
  }

  /** The place a step of the base has among those that are kept. */
  function KeptBefore(steps: seq<Step>, i: nat): nat
    requires i <= |steps|
  {
    if i == 0 then 0
    else
      KeptBefore(steps, i - 1)
      + (if steps[i - 1].key == "inspection_started" || steps[i - 1].key == "inspection_done" then 0 else 1)
  }

  lemma {:induction false} KeepStepsSnoc(steps: seq<Step>, last: Step, drop: set<string>)
    ensures KeepSteps(steps + [last], drop) == KeepSteps(steps, drop) + (if last.key in drop then [] else [last])
  {
    if steps == [] {
      assert [] + [last] == [last] && [last][1..] == [];
    } else {
      assert (steps + [last])[1..] == steps[1..] + [last];
      KeepStepsSnoc(steps[1..], last, drop);
    }
  }

  lemma {:induction false} KeepStepsPlaces(steps: seq<Step>, n: nat)
    requires n <= |steps|
    ensures var kept := KeepSteps(steps[..n], INSPECTION);
            && |kept| == KeptBefore(steps, n)
            && forall i :: 0 <= i < n && steps[i].key !in INSPECTION ==>
                 KeptBefore(steps, i) < |kept| && kept[KeptBefore(steps, i)] == steps[i]
  {
    if n > 0 {
      KeepStepsPlaces(steps, n - 1);
      KeepStepsSnoc(steps[..n - 1], steps[n - 1], INSPECTION);
      assert steps[..n] == steps[..n - 1] + [steps[n - 1]];
    }
  }

  /**
    The contracted steps: every step of the base other than the two of the inspection, at the place that
    the steps kept before it leave it, with nothing changed but its number; and no others.
   */
  lemma ContractedStepsAre(base: Plan, i: nat)
    requires i < |base.steps| && base.steps[i].key != "inspection_started" && base.steps[i].key != "inspection_done"
    ensures var steps, at := Contracted(base).steps, KeptBefore(base.steps, i);
            && |steps| == KeptBefore(base.steps, |base.steps|)
            && at < |steps| && steps[at] == base.steps[i].(displayOrder := at + 1)
  {
    KeepStepsPlaces(base.steps, |base.steps|);
    assert base.steps[..|base.steps|] == base.steps;
  }

  lemma {:induction false} KeepApartSnoc(ts: seq<Transition>, t: Transition, drop: set<string>)
    ensures KeepApart(ts + [t], drop) == KeepApart(ts, drop) + (if t.from in drop || t.to in drop then [] else [t])
  {
    if ts == [] {
      assert [] + [t] == [t] && [t][1..] == [];
    } else {
      assert (ts + [t])[1..] == ts[1..] + [t];
      KeepApartSnoc(ts[1..], t, drop);
    }
  }

  lemma {:induction false} KeepOthersSnoc(ts: seq<Transition>, t: Transition, from: string, to: string)
    ensures KeepOthers(ts + [t], from, to) == KeepOthers(ts, from, to) + (if t.from == from && t.to == to then [] else [t])
  {
    if ts == [] {
      assert [] + [t] == [t] && [t][1..] == [];
    } else {
      assert (ts + [t])[1..] == ts[1..] + [t];
      KeepOthersSnoc(ts[1..], t, from, to);
    }
  }

  /** Transitions are listed as in the base, the added ones last: one more at the end of the base comes right before them. */
  lemma TransitionsKeepTheirOrder(steps: seq<Step>, ts: seq<Transition>, t: Transition)
    ensures var before, after := Contracted(Plan(steps, ts)).transitions, Contracted(Plan(steps, ts + [t])).transitions;
            && |before| > 0
            && after == before[..|before| - 1] + (if AvoidsInspection(t) then [t] else []) + before[|before| - 1..]
    ensures var before, after := Spliced(Plan(steps, ts)).transitions, Spliced(Plan(steps, ts + [t])).transitions;
            && |before| > 1
            && after == before[..|before| - 2]
                        + (if t.from == "inspection_done" && t.to == "work_started" then [] else [t])
                        + before[|before| - 2..]
  {
    KeepApartSnoc(ts, t, INSPECTION);
    KeepOthersSnoc(ts, t, INSPECTION_DONE, WORK_STARTED);
    var apart, others := KeepApart(ts, INSPECTION), KeepOthers(ts, INSPECTION_DONE, WORK_STARTED);
    assert (apart + [START_WORK])[..|apart|] == apart && (apart + [START_WORK])[|apart|..] == [START_WORK];
    assert (others + [SUBMIT, START_APPROVED])[..|others|] == others;
    assert (others + [SUBMIT, START_APPROVED])[|others|..] == [SUBMIT, START_APPROVED];
  }
}
