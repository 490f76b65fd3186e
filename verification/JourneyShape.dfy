/** Both journeys built from a chain are chains again, in the declared order. */
module JourneyShape {
  import opened Wrappers
  import opened Journey

  /** The keys of the contracted journey: the two inspection steps are cut out. */
  function CutOut(keys: seq<string>, p: nat): seq<string>
    requires p + 4 <= |keys|
  {
    keys[..p + 1] + keys[p + 3..]
  }

  /** The keys of the spliced journey: the approval stands after position `k`. */
  function SplicedIn(keys: seq<string>, k: nat): seq<string>
    requires k < |keys|
  {
    keys[..k + 1] + [ESTIMATE] + keys[k + 1..]
  }

  // ---- Contracting -------------------------------------------------------------------------------------

  lemma {:induction false} KeepAllSteps(steps: seq<Step>, drop: set<string>)
    requires forall i :: 0 <= i < |steps| ==> steps[i].key !in drop
    ensures KeepSteps(steps, drop) == steps
  {
    if steps != [] {
      KeepAllSteps(steps[1..], drop);
      assert steps == [steps[0]] + steps[1..];
    }
  }

  lemma {:induction false} KeepStepsConcat(xs: seq<Step>, ys: seq<Step>, drop: set<string>)
    ensures KeepSteps(xs + ys, drop) == KeepSteps(xs, drop) + KeepSteps(ys, drop)
  {
    if xs == [] {
      assert xs + ys == ys;
    } else {
      assert (xs + ys)[0] == xs[0] && (xs + ys)[1..] == xs[1..] + ys;
      KeepStepsConcat(xs[1..], ys, drop);
    }
  }

  lemma OthersAreNotInspection(keys: seq<string>, p: nat)
    requires Distinct(keys) && p + 2 < |keys|
    requires keys[p + 1] == INSPECTION_STARTED && keys[p + 2] == INSPECTION_DONE
    ensures forall i :: 0 <= i < |keys| && i != p + 1 && i != p + 2 ==> keys[i] !in INSPECTION
  {
  }

  lemma {:induction false} KeepAround(front: seq<Step>, middle: seq<Step>, back: seq<Step>, drop: set<string>)
    requires KeepSteps(front, drop) == front && KeepSteps(middle, drop) == [] && KeepSteps(back, drop) == back
    ensures KeepSteps(front + middle + back, drop) == front + back
  {
    KeepStepsConcat(front, middle, drop);
    KeepStepsConcat(front + middle, back, drop);
  }

  lemma {:induction false} CutSteps(steps: seq<Step>, p: nat, drop: set<string>)
    requires p + 3 <= |steps| && steps[p + 1].key in drop && steps[p + 2].key in drop
    requires forall i :: 0 <= i < |steps| && i != p + 1 && i != p + 2 ==> steps[i].key !in drop
    ensures KeepSteps(steps, drop) == steps[..p + 1] + steps[p + 3..]
  {
    var front, middle, back := steps[..p + 1], steps[p + 1..p + 3], steps[p + 3..];
    KeepAllSteps(front, drop);
    KeepAllSteps(back, drop);
    KeepNoSteps(middle, drop);
    KeepAround(front, middle, back, drop);
    assert steps == front + middle + back;
  }

  lemma {:induction false} ContractedSteps(base: Plan, p: nat)
    requires Distinct(Keys(base.steps)) && HasSegment(base, p)
    ensures KeepSteps(base.steps, INSPECTION) == base.steps[..p + 1] + base.steps[p + 3..]
  {
    SegmentAt(base, p);
    OthersAreNotInspection(Keys(base.steps), p);
    CutSteps(base.steps, p, INSPECTION);
  }

  lemma {:induction false} KeepNoSteps(steps: seq<Step>, drop: set<string>)
    requires forall i :: 0 <= i < |steps| ==> steps[i].key in drop
    ensures KeepSteps(steps, drop) == []
  {
    if steps != [] {
      KeepNoSteps(steps[1..], drop);
    }
  }

  lemma ContractedKeys(base: Plan, p: nat)
    requires Distinct(Keys(base.steps)) && HasSegment(base, p)
    ensures Keys(Contracted(base).steps) == CutOut(Keys(base.steps), p)
  {
    ContractedSteps(base, p);
  }

  lemma CutOutLinkIs(keys: seq<string>, p: nat, i: nat)
    requires p + 4 <= |keys| && i + 1 < |CutOut(keys, p)|
    ensures LinkAt(CutOut(keys, p), i) ==
            if i < p then LinkAt(keys, i) else if i == p then (keys[p], keys[p + 3]) else LinkAt(keys, i + 2)
  {
  }

  /** Links of the base that survive the cut. */
  predicate AwayFromInspection(l: Link) {
    l.0 !in INSPECTION && l.1 !in INSPECTION
  }

  /** Away from the cut the links are those of the base that touch no inspection step. */
  lemma CutOutLinks(keys: seq<string>, p: nat)
    requires Distinct(keys) && p + 4 <= |keys|
    requires keys[p + 1] == INSPECTION_STARTED && keys[p + 2] == INSPECTION_DONE
    ensures forall l :: l in Links(CutOut(keys, p)) <==>
              l == (keys[p], keys[p + 3]) || (l in Links(keys) && AwayFromInspection(l))
  {
    var cut := CutOut(keys, p);
    OthersAreNotInspection(keys, p);
    forall l | l in Links(cut) ensures l == (keys[p], keys[p + 3]) || (l in Links(keys) && AwayFromInspection(l)) {
      var i :| 0 <= i < |cut| - 1 && LinkAt(cut, i) == l;
      CutOutLinkIs(keys, p, i);
    }
    forall l | l in Links(keys) && AwayFromInspection(l) ensures l in Links(cut) {
      var i :| 0 <= i < |keys| - 1 && LinkAt(keys, i) == l;
      assert i < p || i > p + 2;
      CutOutLinkIs(keys, p, if i < p then i else i - 2);
    }
    CutOutLinkIs(keys, p, p);
  }

  lemma KeptEdges(base: Plan)
    requires IsChain(base)
    ensures forall l :: l in Edges(KeepApart(base.transitions, INSPECTION)) <==>
              l in Links(Keys(base.steps)) && AwayFromInspection(l)
  {
    var kept := KeepApart(base.transitions, INSPECTION);
    KeepApartIs(base.transitions, INSPECTION);
    forall l ensures l in Edges(kept) <==> l in Edges(base.transitions) && AwayFromInspection(l) {
      if l in Edges(base.transitions) && AwayFromInspection(l) {
        var t :| t in base.transitions && LinkOf(t) == l;
        assert t in kept;
      }
      if l in Edges(kept) {
        var t :| t in kept && LinkOf(t) == l;
        assert t in base.transitions;
      }
    }
  }

  lemma {:induction false} ContractedIsChain(base: Plan, p: nat)
    requires IsChain(base) && HasSegment(base, p)
    ensures IsChain(Contracted(base))
  {
    ContractedKeys(base, p);
    ContractedEdges(base, p);
    ContractedHasNoRepeats(base, p);
    CutOutIsDistinct(Keys(base.steps), p);
  }

  lemma CutOutIsDistinct(keys: seq<string>, p: nat)
    requires Distinct(keys) && p + 4 <= |keys|
    ensures Distinct(CutOut(keys, p))
  {
  }

  lemma {:induction false} ContractedEdges(base: Plan, p: nat)
    requires IsChain(base) && HasSegment(base, p)
    ensures Edges(Contracted(base).transitions) == Links(CutOut(Keys(base.steps), p))
  {
    var keys, kept := Keys(base.steps), KeepApart(base.transitions, INSPECTION);
    SegmentAt(base, p);
    CutOutLinks(keys, p);
    KeptEdges(base);
    EdgesOfConcat(kept, [START_WORK]);
    EdgesOfOne(START_WORK);
  }

  lemma {:induction false} ContractedHasNoRepeats(base: Plan, p: nat)
    requires IsChain(base) && HasSegment(base, p)
    ensures NoRepeats(Contracted(base).transitions)
  {
    var keys, kept := Keys(base.steps), KeepApart(base.transitions, INSPECTION);
    SegmentAt(base, p);
    KeptEdges(base);
    assert LinkOf(START_WORK) !in Edges(kept) by {
      if LinkOf(START_WORK) in Links(keys) {
        OneWayOut(keys, p, LinkOf(START_WORK));
      }
    }
    KeepApartIs(base.transitions, INSPECTION);
    NoRepeatsSnoc(kept, START_WORK);
  }

  lemma EdgesOfOne(t: Transition)
    ensures Edges([t]) == {LinkOf(t)}
  {
    assert t in [t];
  }

  /** A step of a chain leads to its successor only. */
  lemma OneWayOut(keys: seq<string>, p: nat, l: Link)
    requires Distinct(keys) && p + 1 < |keys| && l in Links(keys) && l.0 == keys[p]
    ensures l.1 == keys[p + 1]
  {
    var i :| 0 <= i < |keys| - 1 && LinkAt(keys, i) == l;
    assert i == p;
  }

  lemma EdgesOfConcat(xs: seq<Transition>, ys: seq<Transition>)
    ensures Edges(xs + ys) == Edges(xs) + Edges(ys)
  {
  }

  lemma NoRepeatsSnoc(ts: seq<Transition>, t: Transition)
    requires NoRepeats(ts) && LinkOf(t) !in Edges(ts)
    ensures NoRepeats(ts + [t])
  {
    forall i | 0 <= i < |ts| ensures LinkOf(ts[i]) in Edges(ts) {
      assert ts[i] in ts;
    }
  }

  // ---- Splicing ------------------------------------------------------------------------------------------

  lemma {:induction false} SplicedKeys(base: Plan)
    requires Inspected(base.steps) < |base.steps|
    ensures Keys(Spliced(base).steps) == SplicedIn(Keys(base.steps), Inspected(base.steps))
  {
  }

  lemma SplicedInLinks(keys: seq<string>, k: nat)
    requires Distinct(keys) && k + 1 < |keys| && ESTIMATE !in keys
    ensures forall l :: l in Links(SplicedIn(keys, k)) <==>
              l == (keys[k], ESTIMATE) || l == (ESTIMATE, keys[k + 1])
              || (l in Links(keys) && l != (keys[k], keys[k + 1]))
  {
    var out := SplicedIn(keys, k);
    forall l | l in Links(out)
      ensures l == (keys[k], ESTIMATE) || l == (ESTIMATE, keys[k + 1])
              || (l in Links(keys) && l != (keys[k], keys[k + 1]))
    {
      var i :| 0 <= i < |out| - 1 && LinkAt(out, i) == l;
      if i < k {
        assert l == LinkAt(keys, i);
      } else if i > k + 1 {
        assert l == LinkAt(keys, i - 1);
      }
    }
    forall l | l in Links(keys) && l != (keys[k], keys[k + 1]) ensures l in Links(out) {
      var i :| 0 <= i < |keys| - 1 && LinkAt(keys, i) == l;
      assert i != k;
      assert l == if i < k then LinkAt(out, i) else LinkAt(out, i + 1);
    }
    assert LinkAt(out, k) == (keys[k], ESTIMATE) && LinkAt(out, k + 1) == (ESTIMATE, keys[k + 1]);
  }

  lemma SplicedInIsDistinct(keys: seq<string>, k: nat)
    requires Distinct(keys) && k < |keys| && ESTIMATE !in keys
    ensures Distinct(SplicedIn(keys, k))
  {
  }

  lemma SplicedInLinkSet(keys: seq<string>, k: nat)
    requires Distinct(keys) && k + 1 < |keys| && ESTIMATE !in keys
    ensures Links(SplicedIn(keys, k))
            == Links(keys) - {(keys[k], keys[k + 1])} + {(keys[k], ESTIMATE), (ESTIMATE, keys[k + 1])}
  {
    SplicedInLinks(keys, k);
  }

  lemma SplicedEdges(base: Plan)
    requires IsChain(base)
    ensures Edges(Spliced(base).transitions)
            == Links(Keys(base.steps)) - {(INSPECTION_DONE, WORK_STARTED)}
               + {LinkOf(SUBMIT), LinkOf(START_APPROVED)}
  {
    var kept := KeepOthers(base.transitions, INSPECTION_DONE, WORK_STARTED);
    KeepOthersIs(base.transitions, INSPECTION_DONE, WORK_STARTED);
    EdgesOfConcat(kept, [SUBMIT, START_APPROVED]);
    assert Edges([SUBMIT, START_APPROVED]) == {LinkOf(SUBMIT), LinkOf(START_APPROVED)} by {
      assert SUBMIT in [SUBMIT, START_APPROVED] && START_APPROVED in [SUBMIT, START_APPROVED];
    }
    forall l ensures l in Edges(kept) <==> l in Edges(base.transitions) && l != (INSPECTION_DONE, WORK_STARTED) {
    }
  }

  lemma EstimateHasNoLinks(keys: seq<string>, l: Link)
    requires ESTIMATE !in keys && l in Links(keys)
    ensures l.0 != ESTIMATE && l.1 != ESTIMATE
  {
    var i :| 0 <= i < |keys| - 1 && LinkAt(keys, i) == l;
  }

  lemma {:induction false} SplicedIsChain(base: Plan, p: nat)
    requires IsChain(base) && HasSegment(base, p)
    requires Inspected(base.steps) == p + 2 && ESTIMATE !in Keys(base.steps)
    ensures IsChain(Spliced(base))
  {
    var keys := Keys(base.steps);
    SegmentAt(base, p);
    SplicedKeys(base);
    SplicedInLinkSet(keys, p + 2);
    SplicedInIsDistinct(keys, p + 2);
    SplicedEdges(base);
    SplicedHasNoRepeats(base);
  }

  lemma SplicedHasNoRepeats(base: Plan)
    requires IsChain(base) && ESTIMATE !in Keys(base.steps)
    ensures NoRepeats(Spliced(base).transitions)
  {
    var keys := Keys(base.steps);
    var kept := KeepOthers(base.transitions, INSPECTION_DONE, WORK_STARTED);
    KeepOthersIs(base.transitions, INSPECTION_DONE, WORK_STARTED);
    forall l | l in Edges(kept) ensures l.0 != ESTIMATE && l.1 != ESTIMATE {
      assert l in Edges(base.transitions);
      EstimateHasNoLinks(keys, l);
    }
    NoRepeatsSnoc(kept, SUBMIT);
    EdgesOfConcat(kept, [SUBMIT]);
    NoRepeatsSnoc(kept + [SUBMIT], START_APPROVED);
    assert kept + [SUBMIT] + [START_APPROVED] == Spliced(base).transitions;
  }

  lemma {:induction false} SplicedChainNeeds(base: Plan, p: nat)
    requires IsChain(base) && HasSegment(base, p) && Inspected(base.steps) < |base.steps|
    requires IsChain(Spliced(base))
    ensures Inspected(base.steps) == p + 2 && ESTIMATE !in Keys(base.steps)
  {
    var keys, k := Keys(base.steps), Inspected(base.steps);
    SegmentAt(base, p);
    SplicedKeys(base);
    DistinctSplice(keys, k);
    assert LinkAt(SplicedIn(keys, k), k) == (keys[k], ESTIMATE);
    SplicedEdges(base);
    if (keys[k], ESTIMATE) in Links(keys) {
      EstimateHasNoLinks(keys, (keys[k], ESTIMATE));
    }
    assert keys[k] == INSPECTION_DONE == keys[p + 2];
  }

  lemma DistinctSplice(keys: seq<string>, k: nat)
    requires k < |keys| && Distinct(SplicedIn(keys, k))
    ensures ESTIMATE !in keys
  {
    var out := SplicedIn(keys, k);
    assert out[k + 1] == ESTIMATE;
    forall i | 0 <= i < |keys| ensures keys[i] != ESTIMATE {
      assert keys[i] == if i <= k then out[i] else out[i + 1];
    }
  }

  /**
    Splicing turns a chain with the diagnostic segment into a chain exactly when the first step that
    maps to the status "inspection_done" is the step of that key, and the approval is not there yet.
   */
  lemma SplicedIsChainIff(base: Plan, p: nat)
    requires IsChain(base) && HasSegment(base, p) && Inspected(base.steps) < |base.steps|
    ensures IsChain(Spliced(base)) <==> Inspected(base.steps) == p + 2 && ESTIMATE !in Keys(base.steps)
  {
    if IsChain(Spliced(base)) {
      SplicedChainNeeds(base, p);
    } else if Inspected(base.steps) == p + 2 && ESTIMATE !in Keys(base.steps) {
      SplicedIsChain(base, p);
    }
  }

  /** The journey in which the arrival is said to have the status of a finished inspection. */
  function WithEarlyStatus(base: Plan, p: nat): Plan
    requires p < |base.steps|
  {
    base.(steps := base.steps[p := base.steps[p].(mapsTo := Some(INSPECTION_DONE))])
  }

  /** On such a journey the approval comes before the inspection, while its transitions say after. */
  lemma EarlyStatusBreaksSplice(base: Plan, p: nat)
    requires IsChain(base) && HasSegment(base, p)
    ensures var early := WithEarlyStatus(base, p);
            && IsChain(early) && HasSegment(early, p) && Inspected(early.steps) < |early.steps|
            && !IsChain(Spliced(early))
  {
    var early := WithEarlyStatus(base, p);
    assert Keys(early.steps) == Keys(base.steps);
    assert early.steps[p].mapsTo == Some(INSPECTION_DONE);
    assert Inspected(early.steps) <= p;
    SplicedIsChainIff(early, p);
  }

  // ---- Ends and order -----------------------------------------------------------------------------------

  /** Numbered 1..n, and every transition goes from a declared step to the one numbered next. */
  ghost predicate InOrder(plan: Plan) {
    && (forall i :: 0 <= i < |plan.steps| ==> plan.steps[i].displayOrder == i + 1)
    && (forall t :: t in plan.transitions ==>
          exists i :: 0 <= i < |plan.steps| - 1 && Linked(plan, i, t))
  }

  predicate Linked(plan: Plan, i: nat, t: Transition)
    requires i + 1 < |plan.steps|
  {
    && plan.steps[i].key == t.from && plan.steps[i + 1].key == t.to
    && plan.steps[i + 1].displayOrder == plan.steps[i].displayOrder + 1
  }

  lemma ChainIsInOrder(plan: Plan)
    requires IsChain(plan) && forall i :: 0 <= i < |plan.steps| ==> plan.steps[i].displayOrder == i + 1
    ensures InOrder(plan)
  {
    var keys := Keys(plan.steps);
    forall t | t in plan.transitions ensures exists i :: 0 <= i < |plan.steps| - 1 && Linked(plan, i, t) {
      assert LinkOf(t) in Edges(plan.transitions);
      var i :| 0 <= i < |keys| - 1 && LinkAt(keys, i) == LinkOf(t);
      assert Linked(plan, i, t);
    }
  }

  /** A chain numbered 1..n with the given first and last step. */
  ghost predicate IsJourney(plan: Plan, first: string, last: string) {
    && |plan.steps| > 0 && IsChain(plan) && InOrder(plan)
    && plan.steps[0].key == first && plan.steps[|plan.steps| - 1].key == last
  }

  lemma NumberedChainIsJourney(plan: Plan, keys: seq<string>)
    requires |plan.steps| > 0 && IsChain(plan) && Keys(plan.steps) == keys
    requires forall i :: 0 <= i < |plan.steps| ==> plan.steps[i].displayOrder == i + 1
    ensures IsJourney(plan, keys[0], keys[|keys| - 1])
  {
    ChainIsInOrder(plan);
  }

  /** The contracted journey keeps its ends, declares every endpoint and is numbered along the way. */
  lemma {:induction false} ContractedKeepsShape(base: Plan, p: nat)
    requires IsChain(base) && HasSegment(base, p)
    ensures IsJourney(Contracted(base), base.steps[0].key, base.steps[|base.steps| - 1].key)
  {
    ContractedIsChain(base, p);
    ContractedKeys(base, p);
    NumberedChainIsJourney(Contracted(base), CutOut(Keys(base.steps), p));
  }

  /** So does the spliced one, under the exact condition for it to be a chain. */
  lemma {:induction false} SplicedKeepsShape(base: Plan, p: nat)
    requires IsChain(base) && HasSegment(base, p)
    requires Inspected(base.steps) == p + 2 && ESTIMATE !in Keys(base.steps)
    ensures IsJourney(Spliced(base), base.steps[0].key, base.steps[|base.steps| - 1].key)
  {
    SplicedIsChain(base, p);
    SplicedKeys(base);
    SplicedIsNumbered(base);
    SplicedJourney(Spliced(base), Keys(base.steps), p + 2);
  }

  lemma {:induction false} SplicedJourney(plan: Plan, keys: seq<string>, k: nat)
    requires k + 1 < |keys| && |plan.steps| > 0 && IsChain(plan) && Keys(plan.steps) == SplicedIn(keys, k)
    requires forall i :: 0 <= i < |plan.steps| ==> plan.steps[i].displayOrder == i + 1
    ensures IsJourney(plan, keys[0], keys[|keys| - 1])
  {
    NumberedChainIsJourney(plan, SplicedIn(keys, k));
    SplicedEnds(keys, k);
  }

  lemma {:induction false} SplicedIsNumbered(base: Plan)
    requires Inspected(base.steps) < |base.steps|
    ensures var steps := Spliced(base).steps;
            |steps| > 0 && forall i :: 0 <= i < |steps| ==> steps[i].displayOrder == i + 1
  {
  }

  lemma SplicedEnds(keys: seq<string>, k: nat)
    requires k + 1 < |keys|
    ensures var out := SplicedIn(keys, k); out[0] == keys[0] && out[|out| - 1] == keys[|keys| - 1]
  {
  }
}
