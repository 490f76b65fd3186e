/**
  The retrying delete sweep: pass over the tables, delete the matching rows of each, and try the
  tables whose delete raised a constraint error again in the next pass. A failed delete rolls the
  whole transaction back, so it also undoes the deletes that succeeded before it.
 */
module Sweep {
  import opened Wrappers

  /** A row with the value of the swept column; NULL never matches. */
  datatype Row = Row(id: nat, owner: Option<nat>)

  type Db = map<string, set<Row>>

  /** Whether deleting the matching rows of a table raises in the given database. */
  type Constraints = (Db, string) -> bool

  const MAX_PASSES: nat := 8

  predicate Matches(r: Row, ids: set<nat>) {
    r.owner.Some? && r.owner.value in ids
  }

  function Doomed(db: Db, t: string, ids: set<nat>): set<Row> {
    if t in db then set r | r in db[t] && Matches(r, ids) else {}
  }

  function Delete(db: Db, t: string, ids: set<nat>): Db {
    if t in db then db[t := db[t] - Doomed(db, t, ids)] else db
  }

  /** One executed statement: the table, whether it succeeded, and the row count it reported. */
  datatype Attempt = Attempt(table: string, ok: bool, rows: nat)

  /** The variables of one pass. */
  datatype Progress = Progress(
    db: Db, counts: map<string, nat>, still: seq<string>, progressed: bool, log: seq<Attempt>)

  /** What does not change during a sweep: the last committed database, the doomed ids, the constraints. */
  datatype Job = Job(origin: Db, ids: set<nat>, blocks: Constraints)

  function CountOf(counts: map<string, nat>, t: string): nat {
    if t in counts then counts[t] else 0
  }

  function Try(j: Job, p: Progress, t: string): Progress {
    if j.blocks(p.db, t) then
      Progress(j.origin, p.counts, p.still + [t], p.progressed, p.log + [Attempt(t, false, 0)])
    else
      var n := |Doomed(p.db, t, j.ids)|;
      Progress(Delete(p.db, t, j.ids), if n > 0 then p.counts[t := CountOf(p.counts, t) + n] else p.counts,
               p.still, p.progressed || n > 0, p.log + [Attempt(t, true, n)])
  }

  function Pass(j: Job, p: Progress, tables: seq<string>): Progress
    decreases |tables|
  {
    if tables == [] then p else Pass(j, Try(j, p, tables[0]), tables[1..])
  }

  datatype Result = Result(db: Db, counts: map<string, nat>, remaining: seq<string>, log: seq<Attempt>)

  function Passes(j: Job, left: nat, r: Result): Result {
    if left == 0 || r.remaining == [] then r
    else
      var p := Pass(j, Progress(r.db, r.counts, [], false, r.log), r.remaining);
      var r' := Result(p.db, p.counts, p.still, p.log);
      if !p.progressed && p.still != [] then r' else Passes(j, left - 1, r')
  }

  /** `_sweep` with `execute` set, from a freshly committed session. */
  function Execute(j: Job, tables: seq<string>): Result {
    Passes(j, MAX_PASSES, Result(j.origin, map[], tables, []))
  }

  // ---- The same, as the script runs it ------------------------------------------------------------

  /** A database session: `committed` is what a rollback returns to. */
  class Session {
    var committed: Db
    var db: Db

    method Rollback()
      modifies this`db
      ensures db == committed
    {
      db := committed;
    }

    method Sweep(tables: seq<string>, ids: set<nat>, blocks: Constraints)
      returns (counts: map<string, nat>, remaining: seq<string>)
      requires db == committed
      modifies this`db
      ensures var r := Execute(Job(committed, ids, blocks), tables);
              db == r.db && counts == r.counts && remaining == r.remaining
    {
      counts, remaining := map[], tables;
      ghost var j := Job(committed, ids, blocks);
      ghost var log: seq<Attempt> := [];
      var pass := 0;
      while pass < MAX_PASSES && remaining != []
        invariant 0 <= pass <= MAX_PASSES
        invariant Execute(j, tables) == Passes(j, MAX_PASSES - pass, Result(db, counts, remaining, log))
      {
        var progressed;
        counts, remaining, progressed, log := RunPass(remaining, counts, ids, blocks, log);
        pass := pass + 1;
        if !progressed && remaining != [] {
          break;
        }
      }
    }

    /** One pass over the remaining tables. */
    method RunPass(tables: seq<string>, before: map<string, nat>, ids: set<nat>, blocks: Constraints, ghost past: seq<Attempt>)
      returns (counts: map<string, nat>, still: seq<string>, progressed: bool, ghost log: seq<Attempt>)
      modifies this`db
      ensures Progress(db, counts, still, progressed, log)
              == Pass(Job(committed, ids, blocks), Progress(old(db), before, [], false, past), tables)
    {
      counts, still, progressed, log := before, [], false, past;
      ghost var j := Job(committed, ids, blocks);
      var i := 0;
      while i < |tables|
        invariant 0 <= i <= |tables|
        invariant Pass(j, Progress(old(db), before, [], false, past), tables)
                  == Pass(j, Progress(db, counts, still, progressed, log), tables[i..])
      {
        var table := tables[i];
        assert tables[i..][0] == table && tables[i..][1..] == tables[i + 1..];
        if blocks(db, table) {
          Rollback();
          still := still + [table];
          log := log + [Attempt(table, false, 0)];
          i := i + 1;
          continue;
        }
        var n := |Doomed(db, table, ids)|;
        db := Delete(db, table, ids);
        log := log + [Attempt(table, true, n)];
        if n > 0 {
          counts := counts[table := CountOf(counts, table) + n];
          progressed := true;
        }
        i := i + 1;
      }
    }

    /** `_sweep` without `execute`: one pass of counting queries. */
    method DryRun(tables: seq<string>, ids: set<nat>) returns (counts: map<string, nat>)
      ensures forall t :: t in tables ==> CountOf(counts, t) >= |Doomed(db, t, ids)|
      ensures (forall i, k :: 0 <= i < k < |tables| ==> tables[i] != tables[k]) ==>
                forall t :: t in tables ==> CountOf(counts, t) == |Doomed(db, t, ids)|
      ensures forall t :: t in counts ==> t in tables && counts[t] > 0
    {
      counts := map[];
      for i := 0 to |tables|
        invariant forall t :: t in counts ==> t in tables[..i] && counts[t] > 0
        invariant forall t :: t in tables[..i] ==> CountOf(counts, t) >= |Doomed(db, t, ids)|
        invariant (forall i, k :: 0 <= i < k < |tables| ==> tables[i] != tables[k]) ==>
                    forall t :: t in tables[..i] ==> CountOf(counts, t) == |Doomed(db, t, ids)|
      {
        assert tables[..i + 1] == tables[..i] + [tables[i]];
        var n := |Doomed(db, tables[i], ids)|;
        if n > 0 {
          counts := counts[tables[i] := CountOf(counts, tables[i]) + n];
        }
      }
      assert tables[..|tables|] == tables;
    }
  }
}
