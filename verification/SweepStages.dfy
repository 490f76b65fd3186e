/** The first two stages of the reset: sweep the tenant-scoped tables, commit, then delete the tenants. */
module SweepStages {
  import opened Sweep
  import opened SweepEffects
  import opened SweepClears
  import opened SweepForeignKeys
  import opened SweepRounds

  const TENANTS := "tenants"

  function IdsOf(db: Db): set<nat> {
    if TENANTS in db then set r | r in db[TENANTS] :: r.id else {}
  }

  /** The reference is to a tenant that is there, from a row elsewhere that is there. */
  predicate HoldsTenant(ref: Ref, db: Db) {
    && ref.parent == TENANTS && ref.child != TENANTS && TENANTS in db && ref.child in db
    && (exists p :: p in db[TENANTS] && p.id == ref.parentId)
    && (exists c :: c in db[ref.child] && c.id == ref.childId)
  }

  /** `DELETE FROM tenants` raises. */
  predicate TenantsHeld(refs: set<Ref>, db: Db) {
    exists ref :: ref in refs && HoldsTenant(ref, db)
  }

  function TenantJob(refs: set<Ref>, db: Db): Job {
    Job(db, IdsOf(db), Restrict(refs, IdsOf(db)))
  }

  function WithoutTenants(db: Db): Db {
    if TENANTS in db then db[TENANTS := {}] else db
  }

  /** What is committed when the two stages end, or the second one raises. */
  function Reset(refs: set<Ref>, db: Db, tables: seq<string>): Db {
    var swept := Execute(TenantJob(refs, db), tables).db;
    if TenantsHeld(refs, swept) then swept else WithoutTenants(swept)
  }

  /** The stages as the script runs them; `done` is false when deleting the tenants raises. */
  method RemoveTenants(s: Session, tables: seq<string>, refs: set<Ref>) returns (done: bool)
    requires s.db == s.committed
    modifies s
    ensures s.db == s.committed == Reset(refs, old(s.db), tables)
    ensures done == !TenantsHeld(refs, Execute(TenantJob(refs, old(s.db)), tables).db)
  {
    var ids := IdsOf(s.db);
    var counts, remaining := s.Sweep(tables, ids, Restrict(refs, ids));
    s.committed := s.db;
    if TenantsHeld(refs, s.db) {
      return false;
    }
    s.db := WithoutTenants(s.db);
    s.committed := s.db;
    done := true;
  }

  // ---- When the tenants go -----------------------------------------------------------------------------

  lemma {:induction false} PassLogs(j: Job, p: Progress, tables: seq<string>)
    ensures forall i :: 0 <= i < |Pass(j, p, tables).log| ==>
              Pass(j, p, tables).log[i] in p.log || Pass(j, p, tables).log[i].table in tables
    decreases |tables|
  {
    if tables != [] {
      PassLogs(j, Try(j, p, tables[0]), tables[1..]);
    }
  }

  lemma {:induction false} PassesLog(j: Job, left: nat, r: Result, tables: seq<string>)
    requires (forall t :: t in r.remaining ==> t in tables) && forall i :: 0 <= i < |r.log| ==> r.log[i].table in tables
    ensures forall i :: 0 <= i < |Passes(j, left, r).log| ==> Passes(j, left, r).log[i].table in tables
  {
    if left > 0 && r.remaining != [] {
      var start := Progress(r.db, r.counts, [], false, r.log);
      PassLogs(j, start, r.remaining);
      var p := Pass(j, start, r.remaining);
      forall t | t in p.still ensures t in tables {
        StillIsFromList(j, start, r.remaining, t);
      }
      if p.progressed || p.still == [] {
        PassesLog(j, left - 1, Result(p.db, p.counts, p.still, p.log), tables);
      }
    }
  }

  /** Only listed tables are ever deleted from. */
  lemma LastingAreListed(j: Job, tables: seq<string>)
    ensures forall t :: t in Lasting(Execute(j, tables).log) ==> t in tables
  {
    PassesLog(j, MAX_PASSES, Result(j.origin, map[], tables, []), tables);
  }

  /** Every row that references a tenant carries a tenant's id in the swept column of a table whose delete lasted. */
  ghost predicate ReferencesSwept(refs: set<Ref>, origin: Db, lasting: set<string>)
    requires TENANTS in origin
  {
    forall ref, p, c ::
      ref in refs && ref.parent == TENANTS && ref.child != TENANTS
      && p in origin[TENANTS] && p.id == ref.parentId
      && ref.child in origin && c in origin[ref.child] && c.id == ref.childId
      ==> Matches(c, IdsOf(origin)) && ref.child in lasting
  }

  /**
    The tenants are deleted exactly when each row that references one was among the matching rows of a table
    whose delete succeeded after the sweep's last failure. Otherwise the script ends there, the sweep committed.
   */
  lemma TenantsGoIff(refs: set<Ref>, origin: Db, tables: seq<string>)
    requires TENANTS in origin && TENANTS !in tables
    ensures var r := Execute(TenantJob(refs, origin), tables);
            !TenantsHeld(refs, r.db) <==> ReferencesSwept(refs, origin, Lasting(r.log))
  {
    var j := TenantJob(refs, origin);
    var r := Execute(j, tables);
    NetEffect(j, tables);
    LastingAreListed(j, tables);
    HeldIffUnswept(refs, origin, Lasting(r.log));
  }

  /** The row carries the id of a tenant in its swept column. */
  ghost predicate BelongsToTenant(db: Db, row: Row) {
    row.owner.Some? && "tenants" in db && exists x :: x in db["tenants"] && x.id == row.owner.value
  }

  /**
    What the reset leaves: outside the tenants, every row but those of a tenant in a table whose delete lasted;
    of the tenants themselves, none if each row that references one is gone, and otherwise all.
   */
  lemma ResetRows(refs: set<Ref>, db: Db, tables: seq<string>, t: string, row: Row)
    requires t in db && "tenants" !in tables
    ensures var log, end := Execute(TenantJob(refs, db), tables).log, Reset(refs, db, tables);
            && end.Keys == db.Keys
            && (t != "tenants" ==>
                  (row in end[t] <==> row in db[t] && !(BelongsToTenant(db, row) && Lasts(log, t))))
            && (t == "tenants" ==> end[t] == if ReferencesSwept(refs, db, Lasting(log)) then {} else db[t])
  {
    var j := TenantJob(refs, db);
    RowsAfterSweep(j, tables, t, row);
    if t == TENANTS {
      TenantsGoIff(refs, db, tables);
      NetEffect(j, tables);
      LastingAreListed(j, tables);
    } else {
      assert BelongsToTenant(db, row) <==> row.owner.Some? && row.owner.value in j.ids;
    }
  }

  lemma HeldIffUnswept(refs: set<Ref>, origin: Db, lasting: set<string>)
    requires TENANTS in origin && TENANTS !in lasting
    ensures var db := Erased(origin, lasting, IdsOf(origin));
            !TenantsHeld(refs, db) <==> ReferencesSwept(refs, origin, lasting)
  {
    var ids := IdsOf(origin);
    var db := Erased(origin, lasting, ids);
    assert db[TENANTS] == origin[TENANTS];
    if !ReferencesSwept(refs, origin, lasting) {
      var ref: Ref, p: Row, c: Row :| ref in refs && ref.parent == TENANTS && ref.child != TENANTS
        && p in origin[TENANTS] && p.id == ref.parentId
        && ref.child in origin && c in origin[ref.child] && c.id == ref.childId
        && !(Matches(c, ids) && ref.child in lasting);
      assert c in db[ref.child];
      assert HoldsTenant(ref, db);
    }
    if TenantsHeld(refs, db) {
      var ref :| ref in refs && HoldsTenant(ref, db);
      var p: Row :| p in db[TENANTS] && p.id == ref.parentId;
      var c: Row :| c in db[ref.child] && c.id == ref.childId;
      assert c in origin[ref.child] && !(Matches(c, ids) && ref.child in lasting);
    }
  }

  /** Every row that references a tenant carries a tenant's id and lies in a listed table. */
  ghost predicate ReferencesListed(refs: set<Ref>, origin: Db, tables: seq<string>)
    requires TENANTS in origin
  {
    ReferencesSwept(refs, origin, set t | t in tables)
  }

  /** With children before parents, and nothing outside the list referencing a tenant, the reset is complete. */
  lemma ChildrenFirstResets(refs: set<Ref>, origin: Db, tables: seq<string>)
    requires TENANTS in origin && TENANTS !in tables
    requires ChildrenFirst(refs, origin, IdsOf(origin), tables) && ReferencesListed(refs, origin, tables)
    ensures var end := Reset(refs, origin, tables);
            TENANTS in end && end[TENANTS] == {} && forall t :: t in tables ==> Doomed(end, t, IdsOf(origin)) == {}
  {
    var j := TenantJob(refs, origin);
    var r := Execute(j, tables);
    ChildrenFirstClearsEverything(refs, origin, IdsOf(origin), tables);
    NetEffect(j, tables);
    LastingAreListed(j, tables);
    GoneRowsFreeTenants(refs, origin, tables);
  }

  /** Every row to be swept references the tenant whose id it carries: the swept column is a foreign key. */
  ghost predicate ColumnReferences(refs: set<Ref>, origin: Db, tables: seq<string>) {
    forall t, c :: t in tables && c in Doomed(origin, t, IdsOf(origin)) ==>
      exists ref :: ref in refs && ref.child == t && ref.childId == c.id && ref.parent == TENANTS
                    && ref.parentId in IdsOf(origin)
  }

  /** A row left in a swept table holds its tenant. */
  lemma {:induction false} LeftRowHolds(refs: set<Ref>, origin: Db, tables: seq<string>, db: Db, t: string)
    requires TENANTS in origin && TENANTS !in tables && ColumnReferences(refs, origin, tables) && t in tables
    requires TENANTS in db && db[TENANTS] == origin[TENANTS] && t in db && t in origin && db[t] <= origin[t]
    requires Doomed(db, t, IdsOf(origin)) != {}
    ensures TenantsHeld(refs, db)
  {
    var c: Row :| c in Doomed(db, t, IdsOf(origin));
    assert c in Doomed(origin, t, IdsOf(origin));
    var ref :| ref in refs && ref.child == t && ref.childId == c.id && ref.parent == TENANTS && ref.parentId in IdsOf(origin);
    var p: Row :| p in origin[TENANTS] && p.id == ref.parentId;
    assert HoldsTenant(ref, db);
  }

  lemma {:induction false} GoneTenantsMeanGoneRows(refs: set<Ref>, origin: Db, tables: seq<string>)
    requires TENANTS in origin && TENANTS !in tables && ColumnReferences(refs, origin, tables)
    requires !TenantsHeld(refs, Execute(TenantJob(refs, origin), tables).db)
    ensures AllGone(TenantJob(refs, origin), Execute(TenantJob(refs, origin), tables).db, tables)
  {
    var j := TenantJob(refs, origin);
    var r := Execute(j, tables);
    NetEffect(j, tables);
    LastingAreListed(j, tables);
    forall t | t in tables ensures Doomed(r.db, t, j.ids) == {} {
      if t in origin && Doomed(r.db, t, j.ids) != {} {
        LeftRowHolds(refs, origin, tables, r.db, t);
      }
    }
  }

  /** If every matching row is gone and only listed matching rows reference tenants, the tenants go. */
  lemma {:induction false} GoneRowsFreeTenants(refs: set<Ref>, origin: Db, tables: seq<string>)
    requires TENANTS in origin && TENANTS !in tables && ReferencesListed(refs, origin, tables)
    requires AllGone(TenantJob(refs, origin), Execute(TenantJob(refs, origin), tables).db, tables)
    ensures !TenantsHeld(refs, Execute(TenantJob(refs, origin), tables).db)
  {
    var j := TenantJob(refs, origin);
    var r := Execute(j, tables);
    NetEffect(j, tables);
    forall t, c | t in tables && t in origin && c in Doomed(origin, t, j.ids) ensures t in Lasting(r.log) {
      DoomedLeft(j, r.db, r.log, t);
    }
    forall ref: Ref, p: Row, c: Row |
      ref in refs && ref.parent == TENANTS && ref.child != TENANTS && p in origin[TENANTS] && p.id == ref.parentId
      && ref.child in origin && c in origin[ref.child] && c.id == ref.childId
      ensures Matches(c, j.ids) && ref.child in Lasting(r.log)
    {
      assert ref.child in (set t | t in tables);
      assert c in Doomed(origin, ref.child, j.ids);
    }
    assert ReferencesSwept(refs, origin, Lasting(r.log));
    TenantsGoIff(refs, origin, tables);
  }

  /**
    Before the call: where the swept column is a foreign key, the tenants will go exactly when nothing else
    references them and the list of tables is in an order that the sweep can handle.
   */
  lemma {:induction false} TenantsGoIffOrderWorks(refs: set<Ref>, origin: Db, tables: seq<string>)
    requires TENANTS in origin && TENANTS !in tables && Distinct(tables) && ColumnReferences(refs, origin, tables)
    ensures !TenantsHeld(refs, Execute(TenantJob(refs, origin), tables).db) <==>
            && ReferencesListed(refs, origin, tables)
            && exists cut: nat :: cut <= |tables| && WorksFrom(TenantJob(refs, origin), tables, cut)
  {
    var j := TenantJob(refs, origin);
    RestrictNeedsRows(refs, origin, IdsOf(origin));
    ClearsIffOrderWorks(j, tables);
    if !TenantsHeld(refs, Execute(j, tables).db) {
      GoneTenantsMeanGoneRows(refs, origin, tables);
      TenantsGoIff(refs, origin, tables);
      LastingAreListed(j, tables);
      SweptIsListed(refs, origin, Lasting(Execute(j, tables).log), tables);
    } else if ReferencesListed(refs, origin, tables) && AllGone(j, Execute(j, tables).db, tables) {
      GoneRowsFreeTenants(refs, origin, tables);
    }
  }

  lemma SweptIsListed(refs: set<Ref>, origin: Db, lasting: set<string>, tables: seq<string>)
    requires TENANTS in origin && ReferencesSwept(refs, origin, lasting) && forall t :: t in lasting ==> t in tables
    ensures ReferencesListed(refs, origin, tables)
  {
    assert lasting <= (set t | t in tables);
  }

  /** A table that the sweep forgot, and that references a tenant, keeps all tenants. */
  lemma ForgottenTableKeepsTenants(refs: set<Ref>, origin: Db, tables: seq<string>, ref: Ref, p: Row, c: Row)
    requires TENANTS in origin && TENANTS !in tables && ref in refs && ref.parent == TENANTS && ref.child != TENANTS
    requires p in origin[TENANTS] && p.id == ref.parentId
    requires ref.child in origin && c in origin[ref.child] && c.id == ref.childId
    requires ref.child !in Lasting(Execute(TenantJob(refs, origin), tables).log)
    ensures var end := Reset(refs, origin, tables); TENANTS in end && end[TENANTS] == origin[TENANTS]
  {
    TenantsGoIff(refs, origin, tables);
    NetEffect(TenantJob(refs, origin), tables);
    LastingAreListed(TenantJob(refs, origin), tables);
  }

  /**
    Three tables in the list, c with a row that references one of b, and a with one that references a tenant: all
    rows of a are reported deleted and nothing is reported left, but they are all there, and so are all tenants.
   */
  lemma {:induction false} ForgottenTableStopsReset(
    origin: Db, a: string, b: string, c: string, parent: Row, child: Row, row: Row, tenant: Row)
    requires a != b && b != c && a != c && TENANTS !in {a, b, c} && TENANTS in origin
    requires parent in Doomed(origin, b, IdsOf(origin)) && child in Doomed(origin, c, IdsOf(origin))
    requires forall r :: r in origin[c] && r.id == child.id ==> r == child
    requires row in Doomed(origin, a, IdsOf(origin)) && tenant in origin[TENANTS]
    ensures var refs := {Ref(c, child.id, b, parent.id), Ref(a, row.id, TENANTS, tenant.id)};
            var r, end := Execute(TenantJob(refs, origin), [a, b, c]), Reset(refs, origin, [a, b, c]);
            && r.remaining == [] && CountOf(r.counts, a) == |Doomed(origin, a, IdsOf(origin))|
            && Doomed(end, a, IdsOf(origin)) == Doomed(origin, a, IdsOf(origin))
            && TENANTS in end && end[TENANTS] == origin[TENANTS]
  {
    var held, reference := Ref(c, child.id, b, parent.id), Ref(a, row.id, TENANTS, tenant.id);
    var refs, tables := {held, reference}, [a, b, c];
    var j := TenantJob(refs, origin);
    OneReference(refs, held, origin, IdsOf(origin), a, parent, child);
    ForgottenUnder(j, a, b, c, parent, child);
    var r := Execute(j, tables);
    NetEffect(j, tables);
    LastingAreListed(j, tables);
    assert row in Doomed(r.db, a, j.ids);
    assert HoldsTenant(reference, r.db);
  }
}
