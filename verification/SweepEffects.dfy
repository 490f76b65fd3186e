/** What a sweep leaves behind, and exactly when that is what it is for. */
module SweepEffects {
  import opened Sweep

  // ---- The net effect ------------------------------------------------------------------------------

  /** The tables whose delete succeeded after the last failed one. */
  function Lasting(log: seq<Attempt>): set<string> {
    set i | 0 <= i < |log| && log[i].ok && (forall k :: i < k < |log| ==> log[k].ok) :: log[i].table
  }

  function Erased(db: Db, tables: set<string>, ids: set<nat>): Db {
    map t | t in db :: if t in tables then db[t] - Doomed(db, t, ids) else db[t]
  }

  predicate NeverFailed(log: seq<Attempt>) {
    forall i :: 0 <= i < |log| ==> log[i].ok
  }

  predicate EverSucceeded(log: seq<Attempt>, t: string) {
    exists i :: 0 <= i < |log| && log[i].ok && log[i].table == t
  }

  lemma LastingAfter(log: seq<Attempt>, a: Attempt)
    ensures Lasting(log + [a]) == if a.ok then Lasting(log) + {a.table} else {}
  {
    var log' := log + [a];
    assert log'[|log|] == a;
    if a.ok {
      forall t ensures t in Lasting(log') <==> t in Lasting(log) + {a.table} {
        forall i | 0 <= i < |log| && log[i].table == t && log[i].ok && (forall k :: i < k < |log| ==> log[k].ok)
          ensures t in Lasting(log')
        {
          assert log'[i] == log[i] && forall k :: i < k < |log'| ==> log'[k].ok;
        }
        if t in Lasting(log') {
          var i :| 0 <= i < |log'| && log'[i].ok && (forall k :: i < k < |log'| ==> log'[k].ok) && log'[i].table == t;
          if i < |log| {
            assert forall k :: i < k < |log| ==> log[k] == log'[k];
          }
        }
      }
    } else {
      forall i | 0 <= i < |log'| && log'[i].ok ensures !(forall k :: i < k < |log'| ==> log'[k].ok) {
        assert !log'[|log|].ok;
      }
    }
  }

  /** The database is always the committed one with the lasting deletes applied. */
  ghost predicate Tracks(j: Job, db: Db, log: seq<Attempt>) {
    db == Erased(j.origin, Lasting(log), j.ids)
  }

  lemma TryTracks(j: Job, p: Progress, t: string)
    requires Tracks(j, p.db, p.log)
    ensures Tracks(j, Try(j, p, t).db, Try(j, p, t).log)
  {
    var p' := Try(j, p, t);
    LastingAfter(p.log, p'.log[|p.log|]);
    if j.blocks(p.db, t) {
      assert Erased(j.origin, {}, j.ids) == j.origin;
    } else {
      EraseOneMore(j.origin, Lasting(p.log), t, j.ids);
    }
  }

  lemma EraseOneMore(db: Db, tables: set<string>, t: string, ids: set<nat>)
    ensures Delete(Erased(db, tables, ids), t, ids) == Erased(db, tables + {t}, ids)
  {
    var e := Erased(db, tables, ids);
    if t in db {
      assert e[t] - Doomed(e, t, ids) == db[t] - Doomed(db, t, ids);
    }
    assert Delete(e, t, ids).Keys == db.Keys;
  }

  lemma {:induction false} PassTracks(j: Job, p: Progress, tables: seq<string>)
    requires Tracks(j, p.db, p.log)
    ensures Tracks(j, Pass(j, p, tables).db, Pass(j, p, tables).log)
    decreases |tables|
  {
    if tables != [] {
      TryTracks(j, p, tables[0]);
      PassTracks(j, Try(j, p, tables[0]), tables[1..]);
    }
  }

  lemma {:induction false} PassesTrack(j: Job, left: nat, r: Result)
    requires Tracks(j, r.db, r.log)
    ensures Tracks(j, Passes(j, left, r).db, Passes(j, left, r).log)
  {
    if left > 0 && r.remaining != [] {
      var start := Progress(r.db, r.counts, [], false, r.log);
      PassTracks(j, start, r.remaining);
      var p := Pass(j, start, r.remaining);
      if p.progressed || p.still == [] {
        PassesTrack(j, left - 1, Result(p.db, p.counts, p.still, p.log));
      }
    }
  }

  /**
    Sweep exactness, for every table list and failure pattern: the rows gone on return are exactly
    the matching rows of the tables whose delete succeeded after the last failed delete.
   */
  lemma NetEffect(j: Job, tables: seq<string>)
    ensures var r := Execute(j, tables);
            && r.db == Erased(j.origin, Lasting(r.log), j.ids)
            && (forall t, row :: t in j.origin && row in j.origin[t] && !Matches(row, j.ids) ==> row in r.db[t])
  {
    assert Erased(j.origin, Lasting([]), j.ids) == j.origin;
    PassesTrack(j, MAX_PASSES, Result(j.origin, map[], tables, []));
  }

  // ---- The reported counts ---------------------------------------------------------------------------

  /** Each table's report covers its lasting delete; without a failure the report is exact. */
  ghost predicate Reports(j: Job, counts: map<string, nat>, log: seq<Attempt>) {
    && (forall t :: t in Lasting(log) ==> CountOf(counts, t) >= |Doomed(j.origin, t, j.ids)|)
    && (NeverFailed(log) ==> forall t ::
          CountOf(counts, t) == if EverSucceeded(log, t) then |Doomed(j.origin, t, j.ids)| else 0)
  }

  lemma DoomedLeft(j: Job, db: Db, log: seq<Attempt>, t: string)
    requires Tracks(j, db, log)
    ensures Doomed(db, t, j.ids) == if t in Lasting(log) then {} else Doomed(j.origin, t, j.ids)
  {
  }

  lemma LastingWhenNeverFailed(log: seq<Attempt>, t: string)
    requires NeverFailed(log)
    ensures t in Lasting(log) <==> EverSucceeded(log, t)
  {
  }

  lemma SucceededMore(log: seq<Attempt>, a: Attempt, u: string)
    ensures EverSucceeded(log + [a], u) <==> EverSucceeded(log, u) || (a.ok && u == a.table)
  {
    var log' := log + [a];
    assert log'[|log|] == a;
    if EverSucceeded(log, u) {
      var i :| 0 <= i < |log| && log[i].ok && log[i].table == u;
      assert log'[i] == log[i];
    }
  }

  /** A successful delete: its count is what was left of the table's doomed rows. */
  lemma SuccessReports(j: Job, counts: map<string, nat>, counts': map<string, nat>, log: seq<Attempt>, a: Attempt)
    requires Reports(j, counts, log) && a.ok
    requires a.rows == if a.table in Lasting(log) then 0 else |Doomed(j.origin, a.table, j.ids)|
    requires forall u :: CountOf(counts', u) == CountOf(counts, u) + (if u == a.table then a.rows else 0)
    ensures Reports(j, counts', log + [a])
  {
    LastingAfter(log, a);
    if NeverFailed(log + [a]) {
      assert forall i :: 0 <= i < |log| ==> (log + [a])[i] == log[i];
      LastingWhenNeverFailed(log, a.table);
      forall u ensures CountOf(counts', u) == if EverSucceeded(log + [a], u) then |Doomed(j.origin, u, j.ids)| else 0 {
        SucceededMore(log, a, u);
      }
    }
  }

  lemma FailureReports(j: Job, counts: map<string, nat>, log: seq<Attempt>, a: Attempt)
    requires Reports(j, counts, log) && !a.ok
    ensures Reports(j, counts, log + [a])
  {
    LastingAfter(log, a);
    assert !(log + [a])[|log|].ok;
  }

  lemma TryReports(j: Job, p: Progress, t: string)
    requires Tracks(j, p.db, p.log) && Reports(j, p.counts, p.log)
    ensures Reports(j, Try(j, p, t).counts, Try(j, p, t).log)
  {
    var p' := Try(j, p, t);
    var a := p'.log[|p.log|];
    DoomedLeft(j, p.db, p.log, t);
    if a.ok {
      SuccessReports(j, p.counts, p'.counts, p.log, a);
    } else {
      FailureReports(j, p.counts, p.log, a);
    }
  }

  lemma {:induction false} PassReports(j: Job, p: Progress, tables: seq<string>)
    requires Tracks(j, p.db, p.log) && Reports(j, p.counts, p.log)
    ensures Reports(j, Pass(j, p, tables).counts, Pass(j, p, tables).log)
    decreases |tables|
  {
    if tables != [] {
      TryTracks(j, p, tables[0]);
      TryReports(j, p, tables[0]);
      PassReports(j, Try(j, p, tables[0]), tables[1..]);
    }
  }

  lemma {:induction false} PassesReport(j: Job, left: nat, r: Result)
    requires Tracks(j, r.db, r.log) && Reports(j, r.counts, r.log)
    ensures Reports(j, Passes(j, left, r).counts, Passes(j, left, r).log)
  {
    if left > 0 && r.remaining != [] {
      var start := Progress(r.db, r.counts, [], false, r.log);
      PassTracks(j, start, r.remaining);
      PassReports(j, start, r.remaining);
      var p := Pass(j, start, r.remaining);
      if p.progressed || p.still == [] {
        PassesReport(j, left - 1, Result(p.db, p.counts, p.still, p.log));
      }
    }
  }

  lemma RemovedRows(j: Job, log: seq<Attempt>, t: string)
    requires t in j.origin
    ensures |j.origin[t]| - |Erased(j.origin, Lasting(log), j.ids)[t]|
            == if t in Lasting(log) then |Doomed(j.origin, t, j.ids)| else 0
  {
    assert Doomed(j.origin, t, j.ids) <= j.origin[t];
  }

  /** Reported counts bound the net deletions from above, and are exact when nothing failed. */
  lemma CountsBoundDeletions(j: Job, tables: seq<string>, t: string)
    requires t in j.origin
    ensures var r := Execute(j, tables);
            && t in r.db && |j.origin[t]| - |r.db[t]| <= CountOf(r.counts, t)
            && (NeverFailed(r.log) ==> |j.origin[t]| - |r.db[t]| == CountOf(r.counts, t))
  {
    var r := Execute(j, tables);
    assert Erased(j.origin, Lasting([]), j.ids) == j.origin;
    PassesTrack(j, MAX_PASSES, Result(j.origin, map[], tables, []));
    PassesReport(j, MAX_PASSES, Result(j.origin, map[], tables, []));
    RemovedRows(j, r.log, t);
    if NeverFailed(r.log) {
      LastingWhenNeverFailed(r.log, t);
    }
  }
}
