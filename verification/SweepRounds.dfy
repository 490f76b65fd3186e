/** The sweep row by row, statement by statement and pass by pass. */
module SweepRounds {
  import opened Sweep
  import opened SweepEffects
  import opened SweepClears

  // ---- Rows ---------------------------------------------------------------------------------------------

  /** A delete on the table succeeded, and no statement after it failed. */
  ghost predicate Lasts(log: seq<Attempt>, t: string) {
    exists i :: 0 <= i < |log| && log[i].table == t && forall k :: i <= k < |log| ==> log[k].ok
  }

  lemma LastingIff(log: seq<Attempt>, t: string)
    ensures t in Lasting(log) <==> Lasts(log, t)
  {
    if t in Lasting(log) {
      var i :| 0 <= i < |log| && log[i].ok && (forall k :: i < k < |log| ==> log[k].ok) && log[i].table == t;
      assert forall k :: i <= k < |log| ==> log[k].ok;
    }
    if Lasts(log, t) {
      var i :| 0 <= i < |log| && log[i].table == t && forall k :: i <= k < |log| ==> log[k].ok;
      assert log[i].ok && log[i].table in Lasting(log);
    }
  }

  /**
    The fate of every row: it is gone exactly when it was there, its column held one of the ids, and the delete
    on its table lasted. A row with NULL in the column always stays.
   */
  lemma RowsAfterSweep(j: Job, tables: seq<string>, t: string, row: Row)
    requires t in j.origin
    ensures var r := Execute(j, tables);
            && r.db.Keys == j.origin.Keys
            && (row in r.db[t] <==>
                row in j.origin[t] && !(row.owner.Some? && row.owner.value in j.ids && Lasts(r.log, t)))
  {
    NetEffect(j, tables);
    LastingIff(Execute(j, tables).log, t);
  }

  // ---- Statements ----------------------------------------------------------------------------------------

  /** The tables of the failed statements, in order. */
  function Failed(log: seq<Attempt>): seq<string> {
    if log == [] then []
    else
      var last := log[|log| - 1];
      Failed(log[..|log| - 1]) + (if last.ok then [] else [last.table])
  }

  /** The rows that the statements on a table reported. */
  function RowsOf(log: seq<Attempt>, t: string): nat {
    if log == [] then 0
    else
      var last := log[|log| - 1];
      RowsOf(log[..|log| - 1], t) + (if last.table == t then last.rows else 0)
  }

  /** The statement tried the table in that database: it failed if that raised, and counts the rows of the ids otherwise. */
  ghost predicate Tried(j: Job, db: Db, t: string, a: Attempt) {
    && a.table == t && a.ok == !j.blocks(db, t)
    && (!a.ok ==> a.rows == 0)
    && (a.ok && t !in db ==> a.rows == 0)
    && (a.ok && t in db ==> a.rows == |set r | r in db[t] && r.owner.Some? && r.owner.value in j.ids|)
  }

  /** `added` are the statements of one pass over the tables, which led from `p` to `q`. */
  ghost predicate IsPass(j: Job, p: Progress, tables: seq<string>, q: Progress, added: seq<Attempt>) {
    && q.log == p.log + added && |added| == |tables|
    && (forall k :: 0 <= k < |tables| ==> Tried(j, Pass(j, p, tables[..k]).db, tables[k], added[k]))
    && q.still == p.still + Failed(added)
    && (q.progressed <==> p.progressed || exists k :: 0 <= k < |added| && added[k].rows > 0)
    && (forall t :: CountOf(q.counts, t) == CountOf(p.counts, t) + RowsOf(added, t))
  }

  lemma TriedOnce(j: Job, p: Progress, t: string) returns (a: Attempt)
    ensures var q := Try(j, p, t);
            && Tried(j, p.db, t, a) && q.log == p.log + [a]
            && q.still == p.still + (if a.ok then [] else [t])
            && (q.progressed <==> p.progressed || a.rows > 0)
            && (forall u :: CountOf(q.counts, u) == CountOf(p.counts, u) + (if u == t then a.rows else 0))
  {
    var q := Try(j, p, t);
    a := q.log[|p.log|];
    if t in p.db {
      assert Doomed(p.db, t, j.ids) == set r | r in p.db[t] && r.owner.Some? && r.owner.value in j.ids;
    }
  }

  /** One pass: every table of the list is tried once, in order, and the failed ones are kept in that order. */
  lemma {:induction false} PassIs(j: Job, p: Progress, tables: seq<string>) returns (added: seq<Attempt>)
    ensures IsPass(j, p, tables, Pass(j, p, tables), added)
    decreases |tables|
  {
    if tables == [] {
      added := [];
    } else {
      var n := |tables| - 1;
      var init := tables[..n];
      var front := PassIs(j, p, init);
      assert tables == init + [tables[n]];
      PassSnoc(j, p, init, tables[n]);
      var a := TriedOnce(j, Pass(j, p, init), tables[n]);
      added := front + [a];
      OneMoreStatement(j, p, tables, Pass(j, p, init), front, a);
    }
  }

  lemma {:induction false} OneMoreStatement(j: Job, p: Progress, tables: seq<string>, mid: Progress, front: seq<Attempt>, a: Attempt)
    requires tables != [] && mid == Pass(j, p, tables[..|tables| - 1])
    requires IsPass(j, p, tables[..|tables| - 1], mid, front) && Tried(j, mid.db, tables[|tables| - 1], a)
    requires var q := Pass(j, p, tables);
             && q.log == mid.log + [a]
             && q.still == mid.still + (if a.ok then [] else [a.table])
             && (q.progressed <==> mid.progressed || a.rows > 0)
             && (forall u :: CountOf(q.counts, u) == CountOf(mid.counts, u) + (if u == a.table then a.rows else 0))
    ensures IsPass(j, p, tables, Pass(j, p, tables), front + [a])
  {
    LogSnoc(front, a);
    SnocRegroups(p.log, front, a);
    SnocRegroups(p.still, Failed(front), a.table);
    TriedStill(j, p, tables, front, a);
  }

  lemma SnocRegroups<T>(xs: seq<T>, ys: seq<T>, y: T)
    ensures xs + ys + [y] == xs + (ys + [y]) && xs + ys + [] == xs + (ys + [])
  {
  }

  lemma LogSnoc(log: seq<Attempt>, a: Attempt)
    ensures Failed(log + [a]) == Failed(log) + (if a.ok then [] else [a.table])
    ensures forall t :: RowsOf(log + [a], t) == RowsOf(log, t) + (if a.table == t then a.rows else 0)
    ensures (exists k :: 0 <= k < |log + [a]| && (log + [a])[k].rows > 0) <==>
            (exists k :: 0 <= k < |log| && log[k].rows > 0) || a.rows > 0
  {
    var all := log + [a];
    assert all[..|log|] == log && all[|log|] == a;
    if k :| 0 <= k < |log| && log[k].rows > 0 {
      assert all[k].rows > 0;
    }
  }

  lemma TriedStill(j: Job, p: Progress, tables: seq<string>, front: seq<Attempt>, a: Attempt)
    requires tables != [] && |front| == |tables| - 1
    requires var init := tables[..|tables| - 1];
             forall k :: 0 <= k < |init| ==> Tried(j, Pass(j, p, init[..k]).db, init[k], front[k])
    requires Tried(j, Pass(j, p, tables[..|tables| - 1]).db, tables[|tables| - 1], a)
    ensures forall k :: 0 <= k < |tables| ==> Tried(j, Pass(j, p, tables[..k]).db, tables[k], (front + [a])[k])
  {
    var init := tables[..|tables| - 1];
    forall k | 0 <= k < |tables| ensures Tried(j, Pass(j, p, tables[..k]).db, tables[k], (front + [a])[k]) {
      if k < |init| {
        assert init[..k] == tables[..k];
      }
    }
  }

  // ---- Passes ----------------------------------------------------------------------------------------------

  /** The sweep after `n` passes, were it not to stop. */
  function After(j: Job, tables: seq<string>, n: nat): Result {
    if n == 0 then Result(j.origin, map[], tables, [])
    else
      var before := After(j, tables, n - 1);
      var p := Pass(j, Progress(before.db, before.counts, [], false, before.log), before.remaining);
      Result(p.db, p.counts, p.still, p.log)
  }

  /** Pass `n` deleted nothing and left tables to retry. */
  ghost predicate Stuck(j: Job, tables: seq<string>, n: nat) {
    && n > 0 && After(j, tables, n).remaining != []
    && forall i :: |After(j, tables, n - 1).log| <= i < |After(j, tables, n).log| ==> After(j, tables, n).log[i].rows == 0
  }

  lemma {:induction false} StuckIff(j: Job, tables: seq<string>, n: nat)
    requires n > 0
    ensures var before := After(j, tables, n - 1);
            var p := Pass(j, Progress(before.db, before.counts, [], false, before.log), before.remaining);
            Stuck(j, tables, n) <==> !p.progressed && p.still != []
  {
    var before := After(j, tables, n - 1);
    var start := Progress(before.db, before.counts, [], false, before.log);
    var added := PassIs(j, start, before.remaining);
    var log := After(j, tables, n).log;
    assert log == before.log + added;
    forall k | 0 <= k < |added| ensures log[|before.log| + k] == added[k] {
    }
    if !Stuck(j, tables, n) && After(j, tables, n).remaining != [] {
      var i :| |before.log| <= i < |log| && log[i].rows != 0;
      assert added[i - |before.log|] == log[i];
    }
  }

  /** The sweep ends with pass `n`: the eighth, or one that leaves nothing, or one that got nowhere. */
  ghost predicate EndsWith(j: Job, tables: seq<string>, n: nat) {
    n >= 8 || After(j, tables, n).remaining == [] || Stuck(j, tables, n)
  }

  lemma {:induction false} PassesFrom(j: Job, tables: seq<string>, n: nat) returns (end: nat)
    requires n <= 8 && !Stuck(j, tables, n)
    ensures n <= end <= 8 && EndsWith(j, tables, end) && forall m :: n <= m < end ==> !EndsWith(j, tables, m)
    ensures Passes(j, 8 - n, After(j, tables, n)) == After(j, tables, end)
    decreases 8 - n
  {
    if n == 8 || After(j, tables, n).remaining == [] {
      end := n;
    } else {
      StuckIff(j, tables, n + 1);
      if Stuck(j, tables, n + 1) {
        end := n + 1;
      } else {
        end := PassesFrom(j, tables, n + 1);
      }
    }
  }

  /**
    The sweep as a whole: passes until the first one that leaves nothing, or deletes nothing, or is the eighth;
    each table's reported count is the sum over all its statements, also of those that were rolled back later.
   */
  lemma SweepIsItsPasses(j: Job, tables: seq<string>) returns (end: nat)
    ensures end <= 8 && EndsWith(j, tables, end) && forall m :: 0 <= m < end ==> !EndsWith(j, tables, m)
    ensures Execute(j, tables) == After(j, tables, end)
    ensures forall t :: CountOf(Execute(j, tables).counts, t) == RowsOf(Execute(j, tables).log, t)
  {
    end := PassesFrom(j, tables, 0);
    CountsAreRows(j, tables, end);
  }

  lemma {:induction false} RowsOfConcat(xs: seq<Attempt>, ys: seq<Attempt>, t: string)
    ensures RowsOf(xs + ys, t) == RowsOf(xs, t) + RowsOf(ys, t)
    decreases |ys|
  {
    if ys == [] {
      assert xs + ys == xs;
    } else {
      var init := ys[..|ys| - 1];
      assert (xs + ys)[..|xs + ys| - 1] == xs + init;
      RowsOfConcat(xs, init, t);
    }
  }

  lemma {:induction false} CountsAreRows(j: Job, tables: seq<string>, n: nat)
    ensures forall t :: CountOf(After(j, tables, n).counts, t) == RowsOf(After(j, tables, n).log, t)
  {
    if n > 0 {
      var before := After(j, tables, n - 1);
      CountsAreRows(j, tables, n - 1);
      var added := PassIs(j, Progress(before.db, before.counts, [], false, before.log), before.remaining);
      var r := After(j, tables, n);
      assert r.log == before.log + added;
      assert forall t :: CountOf(r.counts, t) == CountOf(before.counts, t) + RowsOf(added, t);
      forall t ensures CountOf(r.counts, t) == RowsOf(r.log, t) {
        RowsOfConcat(before.log, added, t);
      }
    }
  }
}
