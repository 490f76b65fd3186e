/** The runs of a journey, and what the two rewrites do to them. */
module JourneyRuns {
  import opened Journey
  import opened JourneyShape

  /** A run visits declared steps, each following the last by a transition. */
  ghost predicate IsRun(plan: Plan, r: seq<string>) {
    && r != []
    && (forall i :: 0 <= i < |r| ==> r[i] in Keys(plan.steps))
    && (forall i :: 0 <= i < |r| - 1 ==> LinkAt(r, i) in Edges(plan.transitions))
  }

  function Erase(r: seq<string>, drop: set<string>): seq<string> {
    if r == [] then []
    else (if r[0] in drop then [] else [r[0]]) + Erase(r[1..], drop)
  }

  predicate IsSlice(r: seq<string>, keys: seq<string>, a: nat) {
    0 < |r| && a + |r| <= |keys| && r == keys[a..a + |r|]
  }

  ghost predicate IsWalk(keys: seq<string>, r: seq<string>) {
    r != [] && r[0] in keys && forall i :: 0 <= i < |r| - 1 ==> LinkAt(r, i) in Links(keys)
  }

  lemma LinkPosition(keys: seq<string>, k: nat, l: Link)
    requires Distinct(keys) && k < |keys| && l in Links(keys) && l.0 == keys[k]
    ensures k + 1 < |keys| && l.1 == keys[k + 1]
  {
    var i :| 0 <= i < |keys| - 1 && LinkAt(keys, i) == l;
    assert i == k;
  }

  lemma {:induction false} WalkIsSlice(keys: seq<string>, r: seq<string>) returns (a: nat)
    requires Distinct(keys) && IsWalk(keys, r)
    ensures IsSlice(r, keys, a)
    decreases |r|
  {
    if |r| == 1 {
      a :| 0 <= a < |keys| && keys[a] == r[0];
    } else {
      var n := |r| - 1;
      var init := r[..n];
      assert forall i :: 0 <= i < |init| - 1 ==> LinkAt(init, i) == LinkAt(r, i);
      a := WalkIsSlice(keys, init);
      assert r[n - 1] == init[n - 1] == keys[a + n - 1];
      assert LinkAt(r, n - 1).0 == keys[a + n - 1];
      LinkPosition(keys, a + n - 1, LinkAt(r, n - 1));
      assert keys[a..a + |r|] == keys[a..a + n] + [keys[a + n]];
      assert r == init + [r[n]];
    }
  }

  /** The runs of a chain are its slices. */
  lemma RunIsSlice(plan: Plan, r: seq<string>) returns (a: nat)
    requires IsChain(plan) && IsRun(plan, r)
    ensures IsSlice(r, Keys(plan.steps), a)
  {
    a := WalkIsSlice(Keys(plan.steps), r);
  }

  lemma SliceIsRun(plan: Plan, r: seq<string>, a: nat)
    requires IsChain(plan) && IsSlice(r, Keys(plan.steps), a)
    ensures IsRun(plan, r)
  {
    var keys := Keys(plan.steps);
    forall i | 0 <= i < |r| - 1 ensures LinkAt(r, i) in Edges(plan.transitions) {
      assert LinkAt(r, i) == LinkAt(keys, a + i);
    }
  }

  lemma {:induction false} EraseConcat(xs: seq<string>, ys: seq<string>, drop: set<string>)
    ensures Erase(xs + ys, drop) == Erase(xs, drop) + Erase(ys, drop)
  {
    if xs == [] {
      assert xs + ys == ys;
    } else {
      assert (xs + ys)[1..] == xs[1..] + ys;
      EraseConcat(xs[1..], ys, drop);
    }
  }

  lemma {:induction false} EraseNothing(r: seq<string>, drop: set<string>)
    requires forall i :: 0 <= i < |r| ==> r[i] !in drop
    ensures Erase(r, drop) == r
  {
    if r != [] {
      EraseNothing(r[1..], drop);
      assert r == [r[0]] + r[1..];
    }
  }

  lemma {:induction false} EraseEverything(r: seq<string>, drop: set<string>)
    requires forall i :: 0 <= i < |r| ==> r[i] in drop
    ensures Erase(r, drop) == []
  {
    if r != [] {
      EraseEverything(r[1..], drop);
    }
  }

  /** Where position `i` of a sequence is after the stretch `from..to` is cut out. */
  function Shift(i: nat, from: nat, to: nat): nat
    requires from <= to && (i <= from || to <= i)
  {
    if i <= from then i else i - (to - from)
  }

  /** Cutting the erased stretch `from..to` out of a sequence, seen from one of its slices. */
  lemma {:induction false} EraseSlice(keys: seq<string>, from: nat, to: nat, a: nat, b: nat, drop: set<string>)
    requires from <= to <= |keys| && a <= b <= |keys|
    requires forall i :: 0 <= i < |keys| ==> (keys[i] in drop <==> from <= i < to)
    requires (a <= from || to <= a) && (b <= from || to <= b)
    ensures Shift(a, from, to) <= Shift(b, from, to) <= |keys| - (to - from)
    ensures Erase(keys[a..b], drop) == (keys[..from] + keys[to..])[Shift(a, from, to)..Shift(b, from, to)]
  {
    if b <= from || to <= a {
      OutsideSlice(keys, from, to, a, b, drop);
    } else {
      AcrossSlice(keys, from, to, a, b, drop);
    }
  }

  lemma {:induction false} OutsideSlice(keys: seq<string>, from: nat, to: nat, a: nat, b: nat, drop: set<string>)
    requires from <= to <= |keys| && a <= b <= |keys| && (b <= from || to <= a)
    requires forall i :: 0 <= i < |keys| ==> (keys[i] in drop <==> from <= i < to)
    ensures Shift(a, from, to) <= Shift(b, from, to) <= |keys| - (to - from)
    ensures Erase(keys[a..b], drop) == (keys[..from] + keys[to..])[Shift(a, from, to)..Shift(b, from, to)]
  {
    var r, cut := keys[a..b], keys[..from] + keys[to..];
    assert forall i :: 0 <= i < |r| ==> r[i] == keys[a + i];
    EraseNothing(r, drop);
    var a', b' := Shift(a, from, to), Shift(b, from, to);
    if b <= from {
      assert r == cut[a'..b'];
    } else {
      assert b' - a' == b - a;
      assert forall i :: 0 <= i < |r| ==> cut[a'..b'][i] == r[i];
      assert r == cut[a'..b'];
    }
  }

  lemma {:induction false} AcrossSlice(keys: seq<string>, from: nat, to: nat, a: nat, b: nat, drop: set<string>)
    requires a <= from <= to <= b <= |keys|
    requires forall i :: 0 <= i < |keys| ==> (keys[i] in drop <==> from <= i < to)
    ensures Erase(keys[a..b], drop) == (keys[..from] + keys[to..])[a..b - (to - from)]
  {
    var x, y, z := keys[a..from], keys[from..to], keys[to..b];
    assert forall i :: 0 <= i < |x| ==> x[i] == keys[a + i];
    assert forall i :: 0 <= i < |y| ==> y[i] == keys[from + i];
    assert forall i :: 0 <= i < |z| ==> z[i] == keys[to + i];
    EraseAround(x, y, z, drop);
    assert keys[a..b] == x + y + z;
    assert (keys[..from] + keys[to..])[a..b - (to - from)] == x + z;
  }

  lemma {:induction false} EraseAround(x: seq<string>, y: seq<string>, z: seq<string>, drop: set<string>)
    requires forall i :: 0 <= i < |x| ==> x[i] !in drop
    requires forall i :: 0 <= i < |y| ==> y[i] in drop
    requires forall i :: 0 <= i < |z| ==> z[i] !in drop
    ensures Erase(x + y + z, drop) == x + z
  {
    EraseConcat(x + y, z, drop);
    EraseConcat(x, y, drop);
    EraseNothing(x, drop);
    EraseEverything(y, drop);
    EraseNothing(z, drop);
  }

  /** Exactly the stretch `from..to` of `keys` is dropped. */
  ghost predicate DropsStretch(keys: seq<string>, from: nat, to: nat, drop: set<string>) {
    from <= to <= |keys| && forall i :: 0 <= i < |keys| ==> (keys[i] in drop <==> from <= i < to)
  }

  /** A slice that keeps something and does not end inside the stretch erases to a slice of what is left. */
  lemma {:induction false} SliceErases(keys: seq<string>, from: nat, to: nat, drop: set<string>, r: seq<string>, a: nat)
    requires DropsStretch(keys, from, to, drop) && IsSlice(r, keys, a)
    requires a <= from || to <= a
    requires a + |r| <= from || to <= a + |r|
    requires r[0] !in drop || r[|r| - 1] !in drop
    ensures IsSlice(Erase(r, drop), keys[..from] + keys[to..], Shift(a, from, to))
  {
    var b := a + |r|;
    assert r[0] == keys[a] && r[|r| - 1] == keys[b - 1];
    assert Shift(a, from, to) < Shift(b, from, to);
    EraseSlice(keys, from, to, a, b, drop);
  }

  /** Every slice of what is left comes from a slice whose ends are kept. */
  lemma {:induction false} SliceExpands(keys: seq<string>, from: nat, to: nat, drop: set<string>, q: seq<string>, a': nat)
    returns (r: seq<string>, a: nat)
    requires DropsStretch(keys, from, to, drop) && IsSlice(q, keys[..from] + keys[to..], a')
    ensures IsSlice(r, keys, a) && Erase(r, drop) == q && r[0] !in drop && r[|r| - 1] !in drop
  {
    var gap := to - from;
    var b' := a' + |q|;
    a := if a' < from then a' else a' + gap;
    var b := if b' <= from then b' else b' + gap;
    r := keys[a..b];
    EraseSlice(keys, from, to, a, b, drop);
    assert r[0] == keys[a] && r[|r| - 1] == keys[b - 1];
    assert Shift(b, from, to) == b';
    assert a' != from ==> Shift(a, from, to) == a';
  }

  // ---- The contracted journey ----------------------------------------------------------------------------

  lemma ContractedErases(base: Plan, p: nat)
    requires IsChain(base) && HasSegment(base, p)
    ensures var keys := Keys(base.steps);
            && Keys(Contracted(base).steps) == keys[..p + 1] + keys[p + 3..]
            && DropsStretch(keys, p + 1, p + 3, INSPECTION)
  {
    SegmentAt(base, p);
    ContractedKeys(base, p);
    OthersAreNotInspection(Keys(base.steps), p);
  }

  /** A base run that neither begins nor ends in the inspection becomes, with it erased, a contracted run. */
  lemma BaseRunContracts(base: Plan, p: nat, r: seq<string>)
    requires IsChain(base) && HasSegment(base, p) && IsRun(base, r)
    requires r[0] !in INSPECTION && r[|r| - 1] !in INSPECTION
    ensures IsRun(Contracted(base), Erase(r, INSPECTION))
  {
    var keys := Keys(base.steps);
    ContractedErases(base, p);
    ContractedIsChain(base, p);
    var a := RunIsSlice(base, r);
    EndsOutside(keys, p + 1, p + 3, INSPECTION, r, a);
    SliceErases(keys, p + 1, p + 3, INSPECTION, r, a);
    SliceIsRun(Contracted(base), Erase(r, INSPECTION), Shift(a, p + 1, p + 3));
  }

  lemma EndsOutside(keys: seq<string>, from: nat, to: nat, drop: set<string>, r: seq<string>, a: nat)
    requires DropsStretch(keys, from, to, drop) && IsSlice(r, keys, a)
    requires r[0] !in drop && r[|r| - 1] !in drop
    ensures (a <= from || to <= a) && (a + |r| <= from || to <= a + |r|)
  {
    assert r[0] == keys[a] && r[|r| - 1] == keys[a + |r| - 1];
  }

  /** Every contracted run is such an erased base run. */
  lemma ContractedRunExpands(base: Plan, p: nat, q: seq<string>) returns (r: seq<string>)
    requires IsChain(base) && HasSegment(base, p) && IsRun(Contracted(base), q)
    ensures IsRun(base, r) && r[0] !in INSPECTION && r[|r| - 1] !in INSPECTION && Erase(r, INSPECTION) == q
  {
    ContractedErases(base, p);
    ContractedIsChain(base, p);
    var a' := RunIsSlice(Contracted(base), q);
    var a: nat;
    r, a := SliceExpands(Keys(base.steps), p + 1, p + 3, INSPECTION, q, a');
    SliceIsRun(base, r, a);
  }

  /** The runs of the contracted journey are exactly the base runs with the two inspection steps erased. */
  lemma ContractedRunsExactly(base: Plan, p: nat, q: seq<string>)
    requires IsChain(base) && HasSegment(base, p)
    ensures IsRun(Contracted(base), q) <==>
            exists r :: IsRun(base, r) && r[0] !in INSPECTION && r[|r| - 1] !in INSPECTION && Erase(r, INSPECTION) == q
  {
    forall r | IsRun(base, r) && r[0] !in INSPECTION && r[|r| - 1] !in INSPECTION && Erase(r, INSPECTION) == q
      ensures IsRun(Contracted(base), q)
    {
      BaseRunContracts(base, p, r);
    }
    if IsRun(Contracted(base), q) {
      var r := ContractedRunExpands(base, p, q);
    }
  }

  // ---- The spliced journey -------------------------------------------------------------------------------

  ghost predicate CanSplice(base: Plan, p: nat) {
    IsChain(base) && HasSegment(base, p) && Inspected(base.steps) == p + 2 && ESTIMATE !in Keys(base.steps)
  }

  lemma SplicedErases(base: Plan, p: nat)
    requires CanSplice(base, p)
    ensures var keys, out := Keys(base.steps), Keys(Spliced(base).steps);
            && out == keys[..p + 3] + [ESTIMATE] + keys[p + 3..]
            && DropsStretch(out, p + 3, p + 4, {ESTIMATE})
            && out[..p + 3] + out[p + 4..] == keys
  {
    SplicedKeys(base);
    var keys, out := Keys(base.steps), Keys(Spliced(base).steps);
    assert out[..p + 3] == keys[..p + 3] && out[p + 4..] == keys[p + 3..];
  }

  /** No run from the first step reaches the work without passing the approval. */
  lemma WorkNeedsApproval(base: Plan, p: nat, r: seq<string>)
    requires CanSplice(base, p) && IsRun(Spliced(base), r)
    requires r[0] == Keys(base.steps)[0] && WORK_STARTED in r
    ensures ESTIMATE in r
  {
    var out := Keys(Spliced(base).steps);
    SegmentAt(base, p);
    SplicedErases(base, p);
    SplicedIsChain(base, p);
    var a := RunIsSlice(Spliced(base), r);
    assert out[0] == r[0] == out[a];
    assert a == 0;
    var w :| 0 <= w < |r| && r[w] == WORK_STARTED;
    assert out[p + 4] == WORK_STARTED == out[w];
    assert w == p + 4;
    assert r[p + 3] == out[p + 3] == ESTIMATE;
  }

  /** Erasing the approval from any spliced run, other than the approval alone, gives a base run. */
  lemma SplicedRunErases(base: Plan, p: nat, r: seq<string>)
    requires CanSplice(base, p) && IsRun(Spliced(base), r) && r != [ESTIMATE]
    ensures IsRun(base, Erase(r, {ESTIMATE}))
  {
    SplicedErases(base, p);
    SplicedIsChain(base, p);
    var a := RunIsSlice(Spliced(base), r);
    OneEndKept(Keys(Spliced(base).steps), p + 3, r, a);
    SliceErases(Keys(Spliced(base).steps), p + 3, p + 4, {ESTIMATE}, r, a);
    SliceIsRun(base, Erase(r, {ESTIMATE}), Shift(a, p + 3, p + 4));
  }

  lemma OneEndKept(keys: seq<string>, k: nat, r: seq<string>, a: nat)
    requires DropsStretch(keys, k, k + 1, {ESTIMATE}) && IsSlice(r, keys, a) && r != [ESTIMATE]
    ensures r[0] !in {ESTIMATE} || r[|r| - 1] !in {ESTIMATE}
  {
    assert r[0] == keys[a] && r[|r| - 1] == keys[a + |r| - 1];
    if |r| == 1 {
      assert r == [keys[a]];
    }
  }

  /** And every base run arises that way. */
  lemma BaseRunSplices(base: Plan, p: nat, q: seq<string>) returns (r: seq<string>)
    requires CanSplice(base, p) && IsRun(base, q)
    ensures IsRun(Spliced(base), r) && Erase(r, {ESTIMATE}) == q
  {
    SplicedErases(base, p);
    SplicedIsChain(base, p);
    var a' := RunIsSlice(base, q);
    var a: nat;
    r, a := SliceExpands(Keys(Spliced(base).steps), p + 3, p + 4, {ESTIMATE}, q, a');
    SliceIsRun(Spliced(base), r, a);
  }
}
