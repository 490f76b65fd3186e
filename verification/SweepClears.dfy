/**
  The sweep promises to handle foreign-key order by retrying. Because a failed delete rolls back the
  successful ones before it and those are not tried again, it keeps that promise for some orders of
  the table list only. This module says which.
 */
module SweepClears {
  import opened Sweep

  /** Deleting in this order raises nowhere. */
  predicate Clears(j: Job, db: Db, order: seq<string>)
    decreases |order|
  {
    order == [] || (!j.blocks(db, order[0]) && Clears(j, Delete(db, order[0], j.ids), order[1..]))
  }

  function DeleteAll(j: Job, db: Db, order: seq<string>): Db
    decreases |order|
  {
    if order == [] then db else DeleteAll(j, Delete(db, order[0], j.ids), order[1..])
  }

  predicate IsBusy(j: Job, t: string) {
    Doomed(j.origin, t, j.ids) != {}
  }

  /** The tables that have rows to delete. */
  function Busy(j: Job, tables: seq<string>): seq<string> {
    if tables == [] then []
    else (if IsBusy(j, tables[0]) then [tables[0]] else []) + Busy(j, tables[1..])
  }

  predicate Distinct(tables: seq<string>) {
    forall i, k :: 0 <= i < k < |tables| ==> tables[i] != tables[k]
  }

  /** A constraint can only be violated by a row that is deleted. */
  ghost predicate NeedsRows(j: Job) {
    forall db, t :: j.blocks(db, t) ==> Doomed(db, t, j.ids) != {}
  }

  predicate AllGone(j: Job, db: Db, tables: seq<string>) {
    forall t :: t in tables ==> Doomed(db, t, j.ids) == {}
  }

  /**
    The orders that work: cut the list somewhere; before the cut every table with rows to delete is
    blocked while nothing has been deleted yet; after it, the rest of the list and then those blocked
    tables can be deleted one after another without an error. A cut at 0 is a list that never fails.
   */
  predicate WorksFrom(j: Job, tables: seq<string>, cut: nat)
    requires cut <= |tables|
  {
    && (forall i :: 0 <= i < cut && IsBusy(j, tables[i]) ==> j.blocks(j.origin, tables[i]))
    && Clears(j, j.origin, tables[cut..] + Busy(j, tables[..cut]))
  }

  // ---- Passes over lists ---------------------------------------------------------------------------

  lemma {:induction false} ClearsSplit(j: Job, db: Db, xs: seq<string>, ys: seq<string>)
    ensures Clears(j, db, xs + ys) <==> Clears(j, db, xs) && Clears(j, DeleteAll(j, db, xs), ys)
    decreases |xs|
  {
    if xs == [] {
      assert xs + ys == ys;
    } else {
      assert (xs + ys)[1..] == xs[1..] + ys;
      ClearsSplit(j, Delete(db, xs[0], j.ids), xs[1..], ys);
    }
  }

  lemma {:induction false} PassSplit(j: Job, p: Progress, xs: seq<string>, ys: seq<string>)
    ensures Pass(j, p, xs + ys) == Pass(j, Pass(j, p, xs), ys)
    decreases |xs|
  {
    if xs == [] {
      assert xs + ys == ys;
    } else {
      assert (xs + ys)[1..] == xs[1..] + ys;
      PassSplit(j, Try(j, p, xs[0]), xs[1..], ys);
    }
  }

  lemma DeleteAt(db: Db, t: string, ids: set<nat>, u: string)
    ensures Doomed(Delete(db, t, ids), u, ids) == if u == t then {} else Doomed(db, u, ids)
    ensures Doomed(db, t, ids) == {} ==> Delete(db, t, ids) == db
  {
    if t in db && Doomed(db, t, ids) == {} {
      assert db[t] - {} == db[t];
    }
  }

  lemma {:induction false} DeleteAllAt(j: Job, db: Db, order: seq<string>, u: string)
    ensures Doomed(DeleteAll(j, db, order), u, j.ids) == if u in order then {} else Doomed(db, u, j.ids)
    decreases |order|
  {
    if order != [] {
      DeleteAt(db, order[0], j.ids, u);
      DeleteAllAt(j, Delete(db, order[0], j.ids), order[1..], u);
    }
  }

  /** A pass that raises nowhere deletes everything in its list. */
  lemma {:induction false} CleanPass(j: Job, p: Progress, tables: seq<string>)
    requires Clears(j, p.db, tables)
    ensures var q := Pass(j, p, tables);
            && q.db == DeleteAll(j, p.db, tables) && q.still == p.still
            && (!q.progressed ==> !p.progressed && q.db == p.db)
            && (q.progressed ==> p.progressed || exists t :: t in tables && Doomed(p.db, t, j.ids) != {})
    decreases |tables|
  {
    if tables != [] {
      var t := tables[0];
      CleanPass(j, Try(j, p, t), tables[1..]);
      DeleteAt(p.db, t, j.ids, t);
      if Doomed(p.db, t, j.ids) == {} {
        assert Delete(p.db, t, j.ids) == p.db;
      } else {
        assert t in tables;
      }
    }
  }

  /** While every busy table is blocked, a pass keeps returning to the committed database. */
  lemma {:induction false} BlockedPass(j: Job, p: Progress, tables: seq<string>)
    requires NeedsRows(j) && p.db == j.origin
    requires forall t :: t in tables && IsBusy(j, t) ==> j.blocks(j.origin, t)
    ensures var q := Pass(j, p, tables);
            q.db == j.origin && q.still == p.still + Busy(j, tables) && q.progressed == p.progressed
    decreases |tables|
  {
    if tables != [] {
      var t := tables[0];
      DeleteAt(j.origin, t, j.ids, t);
      BlockedPass(j, Try(j, p, t), tables[1..]);
    }
  }

  lemma {:induction false} BusyIs(j: Job, tables: seq<string>, t: string)
    ensures t in Busy(j, tables) <==> t in tables && IsBusy(j, t)
  {
    if tables != [] {
      BusyIs(j, tables[1..], t);
    }
  }

  // ---- The orders that work do work ------------------------------------------------------------------

  lemma WorkingOrderClears(j: Job, tables: seq<string>, cut: nat)
    requires NeedsRows(j) && cut <= |tables| && WorksFrom(j, tables, cut)
    ensures AllGone(j, Execute(j, tables).db, tables)
  {
    var front, back := tables[..cut], tables[cut..];
    var blocked := Busy(j, front);
    if tables != [] {
      assert tables == front + back;
      ClearsSplit(j, j.origin, back, blocked);
      var start := Progress(j.origin, map[], [], false, []);
      PassSplit(j, start, front, back);
      BlockedPass(j, start, front);
      var mid := Pass(j, start, front);
      CleanPass(j, mid, back);
      var p := Pass(j, start, tables);
      assert p.still == blocked && p.db == DeleteAll(j, j.origin, back);
      if blocked != [] {
        BusyIs(j, front, blocked[0]);
        assert p.progressed;
        var again := Progress(p.db, p.counts, [], false, p.log);
        CleanPass(j, again, blocked);
        var q := Pass(j, again, blocked);
        assert q.db == DeleteAll(j, p.db, blocked) && q.still == [];
        SecondPassEnds(j, Result(p.db, p.counts, blocked, p.log));
      }
      FirstPass(j, tables);
      forall t | t in tables ensures Doomed(DeleteAll(j, DeleteAll(j, j.origin, back), blocked), t, j.ids) == {} {
        DeleteAllAt(j, j.origin, back, t);
        DeleteAllAt(j, DeleteAll(j, j.origin, back), blocked, t);
        BusyIs(j, front, t);
      }
    }
  }

  /** The sweep is its first pass, and then, unless that got nowhere, the remaining passes. */
  lemma FirstPass(j: Job, tables: seq<string>)
    requires tables != []
    ensures var p := Pass(j, Progress(j.origin, map[], [], false, []), tables);
            var r := Result(p.db, p.counts, p.still, p.log);
            && (!p.progressed && p.still != [] ==> Execute(j, tables) == r)
            && (p.progressed && p.still != [] ==> Execute(j, tables) == Passes(j, MAX_PASSES - 1, r))
            && (p.still == [] ==> Execute(j, tables) == r)
  {
    var p := Pass(j, Progress(j.origin, map[], [], false, []), tables);
    var r := Result(p.db, p.counts, p.still, p.log);
    assert p.still == [] ==> Passes(j, MAX_PASSES - 1, r) == r;
  }

  lemma SecondPassEnds(j: Job, r: Result)
    requires r.remaining != []
    requires Pass(j, Progress(r.db, r.counts, [], false, r.log), r.remaining).still == []
    ensures Passes(j, MAX_PASSES - 1, r).db == Pass(j, Progress(r.db, r.counts, [], false, r.log), r.remaining).db
  {
    var p := Pass(j, Progress(r.db, r.counts, [], false, r.log), r.remaining);
    assert Passes(j, MAX_PASSES - 2, Result(p.db, p.counts, [], p.log)).db == p.db;
    assert Passes(j, MAX_PASSES - 1, r) == Passes(j, MAX_PASSES - 2, Result(p.db, p.counts, [], p.log));
  }

  // ---- No other order does --------------------------------------------------------------------------

  /** A table that is out of the list and back in its committed state stays that way. */
  lemma {:induction false} PassLeavesOthers(j: Job, p: Progress, tables: seq<string>, t: string)
    requires t !in tables && Doomed(p.db, t, j.ids) == Doomed(j.origin, t, j.ids)
    ensures Doomed(Pass(j, p, tables).db, t, j.ids) == Doomed(j.origin, t, j.ids)
    decreases |tables|
  {
    if tables != [] {
      DeleteAt(p.db, tables[0], j.ids, t);
      PassLeavesOthers(j, Try(j, p, tables[0]), tables[1..], t);
    }
  }

  lemma {:induction false} StillIsFromList(j: Job, p: Progress, tables: seq<string>, t: string)
    ensures t in Pass(j, p, tables).still ==> t in p.still || t in tables
    decreases |tables|
  {
    if tables != [] {
      StillIsFromList(j, Try(j, p, tables[0]), tables[1..], t);
    }
  }

  lemma {:induction false} PassesLeaveOthers(j: Job, left: nat, r: Result, t: string)
    requires t !in r.remaining && Doomed(r.db, t, j.ids) == Doomed(j.origin, t, j.ids)
    ensures Doomed(Passes(j, left, r).db, t, j.ids) == Doomed(j.origin, t, j.ids)
  {
    if left > 0 && r.remaining != [] {
      var start := Progress(r.db, r.counts, [], false, r.log);
      PassLeavesOthers(j, start, r.remaining, t);
      StillIsFromList(j, start, r.remaining, t);
      var p := Pass(j, start, r.remaining);
      if p.progressed || p.still == [] {
        PassesLeaveOthers(j, left - 1, Result(p.db, p.counts, p.still, p.log), t);
      }
    }
  }

  /** Where a pass last failed: after that point it raises nowhere. */
  lemma {:induction false} LastFailure(j: Job, p: Progress, tables: seq<string>) returns (cut: nat)
    ensures cut <= |tables|
    ensures Clears(j, Pass(j, p, tables[..cut]).db, tables[cut..])
    ensures cut > 0 ==> j.blocks(Pass(j, p, tables[..cut - 1]).db, tables[cut - 1])
    decreases |tables|
  {
    if tables == [] {
      cut := 0;
      assert tables[cut..] == [];
    } else {
      var n := |tables| - 1;
      var init, last := tables[..n], tables[n];
      assert tables == init + [last];
      PassSplit(j, p, init, [last]);
      if j.blocks(Pass(j, p, init).db, last) {
        cut := |tables|;
        assert tables[..cut] == tables && tables[cut..] == [] && tables[..cut - 1] == init;
      } else {
        cut := LastFailure(j, p, init);
        assert init[..cut] == tables[..cut] && tables[cut..] == init[cut..] + [last];
        var mid := Pass(j, p, init[..cut]);
        assert init == init[..cut] + init[cut..];
        PassSplit(j, p, init[..cut], init[cut..]);
        CleanPass(j, mid, init[cut..]);
        ClearsSplit(j, mid.db, init[cut..], [last]);
        assert Clears(j, DeleteAll(j, mid.db, init[cut..]), [last]);
        if cut > 0 {
          assert init[..cut - 1] == tables[..cut - 1];
        }
      }
    }
  }

  lemma PassSnoc(j: Job, p: Progress, tables: seq<string>, t: string)
    ensures Pass(j, p, tables + [t]) == Try(j, Pass(j, p, tables), t)
  {
    PassSplit(j, p, tables, [t]);
    var q := Try(j, Pass(j, p, tables), t);
    assert [t][1..] == [] && Pass(j, q, []) == q;
  }

  /** A pass that ends in a failed delete leaves the database as it was last committed. */
  lemma {:induction false} FailureResets(j: Job, p: Progress, tables: seq<string>)
    requires tables != [] && j.blocks(Pass(j, p, tables[..|tables| - 1]).db, tables[|tables| - 1])
    ensures Pass(j, p, tables).db == j.origin
  {
    var n := |tables| - 1;
    assert tables == tables[..n] + [tables[n]];
    PassSnoc(j, p, tables[..n], tables[n]);
  }

  /** In a pass that ends with a failure, a busy table that succeeded earlier is lost: restored and not retried. */
  lemma {:induction false} SuccessBeforeFailureIsLost(j: Job, p: Progress, tables: seq<string>, i: nat)
    requires i < |tables| && Distinct(tables) && tables[i] !in p.still
    requires !j.blocks(Pass(j, p, tables[..i]).db, tables[i])
    ensures tables[i] !in Pass(j, p, tables).still
  {
    var t := tables[i];
    var before, after := tables[..i], tables[i + 1..];
    assert tables == before + ([t] + after);
    PassSplit(j, p, before, [t] + after);
    var mid := Pass(j, p, before);
    StillIsFromList(j, p, before, t);
    assert ([t] + after)[1..] == after;
    StillIsFromList(j, Try(j, mid, t), after, t);
    assert t !in before && t !in after;
  }

  /** If no busy table is lost in a pass up to its last failure, all of them were blocked from the start. */
  lemma {:induction false} AllBlocked(j: Job, p: Progress, tables: seq<string>, n: nat)
    requires NeedsRows(j) && n <= |tables| && p.db == j.origin
    requires forall i :: 0 <= i < n && IsBusy(j, tables[i]) ==> j.blocks(Pass(j, p, tables[..i]).db, tables[i])
    ensures Pass(j, p, tables[..n]).db == j.origin
    ensures forall i :: 0 <= i < n && IsBusy(j, tables[i]) ==> j.blocks(j.origin, tables[i])
  {
    if n > 0 {
      AllBlocked(j, p, tables, n - 1);
      var t := tables[n - 1];
      assert tables[..n] == tables[..n - 1] + [t];
      PassSplit(j, p, tables[..n - 1], [t]);
      DeleteAt(j.origin, t, j.ids, t);
    }
  }

  /** A pass without a failure clears its list; otherwise some table in it was blocked. */
  lemma {:induction false} FailedPassRestores(j: Job, p: Progress, tables: seq<string>, t: string)
    requires !Clears(j, p.db, tables) && t !in tables
    ensures Doomed(Pass(j, p, tables).db, t, j.ids) == Doomed(j.origin, t, j.ids)
    decreases |tables|
  {
    var head := tables[0];
    if j.blocks(p.db, head) {
      PassLeavesOthers(j, Try(j, p, head), tables[1..], t);
    } else {
      FailedPassRestores(j, Try(j, p, head), tables[1..], t);
    }
  }

  /** Up to its last failure a sweep that cleared everything deleted nothing that was there to delete. */
  lemma BlockedUpToLastFailure(j: Job, tables: seq<string>, cut: nat)
    requires NeedsRows(j) && Distinct(tables) && AllGone(j, Execute(j, tables).db, tables) && cut <= |tables|
    requires cut > 0 ==>
               j.blocks(Pass(j, Progress(j.origin, map[], [], false, []), tables[..cut - 1]).db, tables[cut - 1])
    ensures var start := Progress(j.origin, map[], [], false, []);
            forall i :: 0 <= i < cut && IsBusy(j, tables[i]) ==> j.blocks(Pass(j, start, tables[..i]).db, tables[i])
  {
    var start := Progress(j.origin, map[], [], false, []);
    forall i | 0 <= i < cut && IsBusy(j, tables[i])
      ensures j.blocks(Pass(j, start, tables[..i]).db, tables[i])
    {
      if !j.blocks(Pass(j, start, tables[..i]).db, tables[i]) {
        LostForGood(j, tables, cut, i);
      }
    }
  }

  lemma FrontIsBlocked(j: Job, tables: seq<string>, cut: nat)
    requires cut <= |tables|
    requires forall i :: 0 <= i < cut && IsBusy(j, tables[i]) ==> j.blocks(j.origin, tables[i])
    ensures forall t :: t in tables[..cut] && IsBusy(j, t) ==> j.blocks(j.origin, t)
  {
    forall t | t in tables[..cut] && IsBusy(j, t) ensures j.blocks(j.origin, t) {
      var i :| 0 <= i < cut && tables[..cut][i] == t;
      assert tables[i] == t;
    }
  }

  /** The cut that a sweep which cleared everything reveals. */
  lemma ClearedOrderWorks(j: Job, tables: seq<string>) returns (cut: nat)
    requires NeedsRows(j) && Distinct(tables) && AllGone(j, Execute(j, tables).db, tables)
    ensures cut <= |tables| && WorksFrom(j, tables, cut)
  {
    var start := Progress(j.origin, map[], [], false, []);
    cut := LastFailure(j, start, tables);
    if tables != [] {
      BlockedUpToLastFailure(j, tables, cut);
      AllBlocked(j, start, tables, cut);
      FrontIsBlocked(j, tables, cut);
      RetriesClear(j, tables, cut);
      ClearsSplit(j, j.origin, tables[cut..], Busy(j, tables[..cut]));
    } else {
      assert tables[cut..] + Busy(j, tables[..cut]) == [];
    }
  }

  lemma LostForGood(j: Job, tables: seq<string>, cut: nat, i: nat)
    requires NeedsRows(j) && Distinct(tables) && cut <= |tables| && i < cut && IsBusy(j, tables[i])
    requires var start := Progress(j.origin, map[], [], false, []);
             && !j.blocks(Pass(j, start, tables[..i]).db, tables[i])
             && j.blocks(Pass(j, start, tables[..cut - 1]).db, tables[cut - 1])
    ensures Doomed(Execute(j, tables).db, tables[i], j.ids) != {}
  {
    var start := Progress(j.origin, map[], [], false, []);
    var t := tables[i];
    var front, back := tables[..cut], tables[cut..];
    assert front[..|front| - 1] == tables[..cut - 1];
    FailureResets(j, start, front);
    assert tables == front + back;
    PassSplit(j, start, front, back);
    assert t !in back;
    PassLeavesOthers(j, Pass(j, start, front), back, t);
    SuccessBeforeFailureIsLost(j, start, tables, i);
    var p := Pass(j, start, tables);
    PassesLeaveOthers(j, MAX_PASSES - 1, Result(p.db, p.counts, p.still, p.log), t);
  }

  lemma FirstPassShape(j: Job, tables: seq<string>, cut: nat)
    requires NeedsRows(j) && cut <= |tables| && Clears(j, j.origin, tables[cut..])
    requires forall t :: t in tables[..cut] && IsBusy(j, t) ==> j.blocks(j.origin, t)
    ensures var p := Pass(j, Progress(j.origin, map[], [], false, []), tables);
            && p.still == Busy(j, tables[..cut]) && p.db == DeleteAll(j, j.origin, tables[cut..])
            && (!p.progressed ==> p.db == j.origin)
            && (p.progressed ==> exists t :: t in tables[cut..] && IsBusy(j, t))
  {
    var start := Progress(j.origin, map[], [], false, []);
    var front, back := tables[..cut], tables[cut..];
    assert tables == front + back;
    PassSplit(j, start, front, back);
    BlockedPass(j, start, front);
    CleanPass(j, Pass(j, start, front), back);
  }

  /** A failing second pass restores what the first pass deleted, and that is not tried again. */
  lemma FailedRetryLoses(j: Job, r: Result, t: string)
    requires r.remaining != [] && t !in r.remaining && !Clears(j, r.db, r.remaining)
    ensures Doomed(Passes(j, MAX_PASSES - 1, r).db, t, j.ids) == Doomed(j.origin, t, j.ids)
  {
    var again := Progress(r.db, r.counts, [], false, r.log);
    FailedPassRestores(j, again, r.remaining, t);
    StillIsFromList(j, again, r.remaining, t);
    var q := Pass(j, again, r.remaining);
    PassesLeaveOthers(j, MAX_PASSES - 2, Result(q.db, q.counts, q.still, q.log), t);
  }

  /** After a first pass that was blocked up to `cut`, everything can only be gone if the retries raise nowhere. */
  lemma RetriesClear(j: Job, tables: seq<string>, cut: nat)
    requires NeedsRows(j) && Distinct(tables) && AllGone(j, Execute(j, tables).db, tables) && tables != []
    requires cut <= |tables| && Clears(j, j.origin, tables[cut..])
    requires forall t :: t in tables[..cut] && IsBusy(j, t) ==> j.blocks(j.origin, t)
    ensures Clears(j, DeleteAll(j, j.origin, tables[cut..]), Busy(j, tables[..cut]))
  {
    var p := Pass(j, Progress(j.origin, map[], [], false, []), tables);
    var front, back, blocked := tables[..cut], tables[cut..], Busy(j, tables[..cut]);
    FirstPassShape(j, tables, cut);
    FirstPass(j, tables);
    if blocked != [] {
      BusyIs(j, front, blocked[0]);
      assert blocked[0] in tables;
      assert p.progressed;
      var t :| t in back && IsBusy(j, t);
      BusyIs(j, front, t);
      assert t in tables && t !in front;
      if !Clears(j, p.db, blocked) {
        FailedRetryLoses(j, Result(p.db, p.counts, blocked, p.log), t);
      }
    }
  }

  /**
    The sweep removes every matching row if and only if its table list can be cut so that the front
    is blocked as a whole and the rest, followed by the front, raises nowhere.
   */
  lemma ClearsIffOrderWorks(j: Job, tables: seq<string>)
    requires NeedsRows(j) && Distinct(tables)
    ensures AllGone(j, Execute(j, tables).db, tables) <==>
            exists cut: nat :: cut <= |tables| && WorksFrom(j, tables, cut)
  {
    if AllGone(j, Execute(j, tables).db, tables) {
      var cut := ClearedOrderWorks(j, tables);
    }
    forall cut: nat | cut <= |tables| && WorksFrom(j, tables, cut) ensures AllGone(j, Execute(j, tables).db, tables) {
      WorkingOrderClears(j, tables, cut);
    }
  }
}
