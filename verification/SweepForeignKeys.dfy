/** The sweep under RESTRICT foreign keys: the order it needs, and what happens without it. */
module SweepForeignKeys {
  import opened Sweep
  import opened SweepEffects
  import opened SweepClears

  /** Row `childId` of `child` references row `parentId` of `parent`. */
  datatype Ref = Ref(child: string, childId: nat, parent: string, parentId: nat)

  /** The reference still holds a row that the delete on `t` would remove, and is not removed with it. */
  predicate Violated(ref: Ref, db: Db, t: string, ids: set<nat>) {
    && ref.parent == t && ref.child in db
    && (exists p :: p in Doomed(db, t, ids) && p.id == ref.parentId)
    && (exists c :: c in db[ref.child] && c.id == ref.childId && !(ref.child == t && Matches(c, ids)))
  }

  function Restrict(refs: set<Ref>, ids: set<nat>): Constraints {
    (db, t) => exists ref :: ref in refs && Violated(ref, db, t, ids)
  }

  /**
    Every row that references a doomed row is doomed itself and lies in the same table or in one that
    comes earlier in the list.
   */
  ghost predicate ChildrenFirst(refs: set<Ref>, origin: Db, ids: set<nat>, tables: seq<string>) {
    forall ref, i, p, c ::
      ref in refs && 0 <= i < |tables| && tables[i] == ref.parent
      && p in Doomed(origin, ref.parent, ids) && p.id == ref.parentId
      && ref.child in origin && c in origin[ref.child] && c.id == ref.childId
      ==> Matches(c, ids) && exists k :: 0 <= k <= i && tables[k] == ref.child
  }

  lemma {:induction false} DeleteAllShrinks(j: Job, db: Db, order: seq<string>)
    ensures var db' := DeleteAll(j, db, order);
            db'.Keys == db.Keys && forall t :: t in db ==> db'[t] <= db[t]
    decreases |order|
  {
    if order != [] {
      DeleteAllShrinks(j, Delete(db, order[0], j.ids), order[1..]);
    }
  }

  lemma {:induction false} DeleteAllSnoc(j: Job, db: Db, order: seq<string>, t: string)
    ensures DeleteAll(j, db, order + [t]) == Delete(DeleteAll(j, db, order), t, j.ids)
    decreases |order|
  {
    if order == [] {
      assert order + [t] == [t];
      assert [t][1..] == [];
      assert DeleteAll(j, Delete(db, t, j.ids), []) == Delete(db, t, j.ids);
    } else {
      assert (order + [t])[1..] == order[1..] + [t];
      DeleteAllSnoc(j, Delete(db, order[0], j.ids), order[1..], t);
    }
  }

  /** A reference whose child is doomed and deleted earlier, or in the same statement, is not violated. */
  lemma {:induction false} NotViolated(j: Job, tables: seq<string>, i: nat, ref: Ref)
    requires i < |tables|
    requires forall p, c ::
               p in Doomed(j.origin, tables[i], j.ids) && p.id == ref.parentId
               && ref.child in j.origin && c in j.origin[ref.child] && c.id == ref.childId
               ==> Matches(c, j.ids) && (ref.child == tables[i] || ref.child in tables[..i])
    ensures !Violated(ref, DeleteAll(j, j.origin, tables[..i]), tables[i], j.ids)
  {
    var db := DeleteAll(j, j.origin, tables[..i]);
    DeleteAllShrinks(j, j.origin, tables[..i]);
    DeleteAllAt(j, j.origin, tables[..i], ref.child);
    if ref.child in db {
      forall p: Row, c: Row | p in Doomed(db, tables[i], j.ids) && p.id == ref.parentId
                              && c in db[ref.child] && c.id == ref.childId
        ensures ref.child == tables[i] && Matches(c, j.ids)
      {
        assert p in Doomed(j.origin, tables[i], j.ids) && c in j.origin[ref.child];
        assert c in Doomed(db, ref.child, j.ids);
      }
    }
  }

  lemma {:induction false} NothingBlocks(refs: set<Ref>, origin: Db, ids: set<nat>, tables: seq<string>, i: nat)
    requires ChildrenFirst(refs, origin, ids, tables) && i < |tables|
    ensures var j := Job(origin, ids, Restrict(refs, ids));
            !j.blocks(DeleteAll(j, origin, tables[..i]), tables[i])
  {
    var j := Job(origin, ids, Restrict(refs, ids));
    forall ref | ref in refs ensures !Violated(ref, DeleteAll(j, origin, tables[..i]), tables[i], ids) {
      if ref.parent == tables[i] {
        forall p: Row, c: Row | p in Doomed(origin, tables[i], ids) && p.id == ref.parentId
                                && ref.child in origin && c in origin[ref.child] && c.id == ref.childId
          ensures Matches(c, ids) && (ref.child == tables[i] || ref.child in tables[..i])
        {
          var k :| 0 <= k <= i && tables[k] == ref.child;
          assert k < i ==> tables[..i][k] == ref.child;
        }
        NotViolated(j, tables, i, ref);
      }
    }
  }

  lemma {:induction false} RestClears(refs: set<Ref>, origin: Db, ids: set<nat>, tables: seq<string>, i: nat)
    requires ChildrenFirst(refs, origin, ids, tables) && i <= |tables|
    ensures var j := Job(origin, ids, Restrict(refs, ids));
            Clears(j, DeleteAll(j, origin, tables[..i]), tables[i..])
    decreases |tables| - i
  {
    if i < |tables| {
      var j := Job(origin, ids, Restrict(refs, ids));
      NothingBlocks(refs, origin, ids, tables, i);
      RestClears(refs, origin, ids, tables, i + 1);
      assert tables[..i + 1] == tables[..i] + [tables[i]];
      DeleteAllSnoc(j, origin, tables[..i], tables[i]);
      assert tables[i..][1..] == tables[i + 1..];
    }
  }

  lemma {:induction false} CleanPassLogsNoFailure(j: Job, p: Progress, tables: seq<string>)
    requires Clears(j, p.db, tables) && NeverFailed(p.log)
    ensures NeverFailed(Pass(j, p, tables).log)
    decreases |tables|
  {
    if tables != [] {
      CleanPassLogsNoFailure(j, Try(j, p, tables[0]), tables[1..]);
    }
  }

  /** Children before parents: nothing fails, every matching row goes, nothing is left to retry. */
  lemma ChildrenFirstClearsEverything(refs: set<Ref>, origin: Db, ids: set<nat>, tables: seq<string>)
    requires ChildrenFirst(refs, origin, ids, tables)
    ensures var j := Job(origin, ids, Restrict(refs, ids));
            var r := Execute(j, tables);
            AllGone(j, r.db, tables) && r.remaining == [] && NeverFailed(r.log)
  {
    var j := Job(origin, ids, Restrict(refs, ids));
    RestClears(refs, origin, ids, tables, 0);
    assert DeleteAll(j, origin, tables[..0]) == origin && tables[0..] == tables;
    if tables != [] {
      var start := Progress(origin, map[], [], false, []);
      CleanPass(j, start, tables);
      CleanPassLogsNoFailure(j, start, tables);
      FirstPass(j, tables);
      forall t | t in tables ensures Doomed(DeleteAll(j, origin, tables), t, ids) == {} {
        DeleteAllAt(j, origin, tables, t);
      }
    }
  }

  /** A RESTRICT reference can only be violated by a row that is deleted, so the exact condition on orders applies. */
  lemma RestrictNeedsRows(refs: set<Ref>, origin: Db, ids: set<nat>)
    ensures NeedsRows(Job(origin, ids, Restrict(refs, ids)))
  {
    var j := Job(origin, ids, Restrict(refs, ids));
    forall db, t | j.blocks(db, t) ensures Doomed(db, t, ids) != {} {
      var ref :| ref in refs && Violated(ref, db, t, ids);
    }
  }

  // ---- A table the sweep forgets ----------------------------------------------------------------------

  /**
    Of deletes from `a`, `b` and `c`, only the one from `b` can raise, and it does exactly while `c` has the row
    `child` that references the doomed row `parent` of `b`.
   */
  ghost predicate HeldByOneRow(j: Job, a: string, b: string, c: string, parent: Row, child: Row) {
    forall db: Db, t: string | t in {a, b, c} && b in db && c in db && parent in Doomed(db, b, j.ids) ::
      j.blocks(db, t) <==> t == b && exists r: Row :: r in db[c] && r.id == child.id
  }

  lemma OneReference(refs: set<Ref>, ref: Ref, origin: Db, ids: set<nat>, a: string, parent: Row, child: Row)
    requires ref in refs && ref.childId == child.id && ref.parentId == parent.id && ref.parent != ref.child
    requires forall x :: x in refs && x != ref ==> x.parent !in {a, ref.parent, ref.child}
    requires a != ref.parent
    ensures HeldByOneRow(Job(origin, ids, Restrict(refs, ids)), a, ref.parent, ref.child, parent, child)
  {
    var j := Job(origin, ids, Restrict(refs, ids));
    forall db: Db, t: string | t in {a, ref.parent, ref.child} && ref.parent in db && ref.child in db && parent in Doomed(db, ref.parent, j.ids)
      ensures j.blocks(db, t) <==> t == ref.parent && exists r: Row :: r in db[ref.child] && r.id == child.id
    {
      assert Violated(ref, db, t, ids) <==> t == ref.parent && exists r: Row :: r in db[ref.child] && r.id == child.id;
    }
  }

  /**
    One reference from a later table to an earlier one is enough. Of the list a, b, c with a row of c
    referencing a row of b, the first pass deletes a, fails on b and rolls back; the second pass deletes b.
    The sweep then reports all rows of a as deleted and nothing left over, and every one of them is still there.
   */
  lemma ForgottenTable(origin: Db, ids: set<nat>, a: string, b: string, c: string, parent: Row, child: Row)
    requires a != b && b != c && a != c && Doomed(origin, a, ids) != {}
    requires parent in Doomed(origin, b, ids) && child in Doomed(origin, c, ids)
    requires forall r :: r in origin[c] && r.id == child.id ==> r == child
    ensures var r := Execute(Job(origin, ids, Restrict({Ref(c, child.id, b, parent.id)}, ids)), [a, b, c]);
            && r.remaining == []
            && CountOf(r.counts, a) == |Doomed(origin, a, ids)| > 0
            && Doomed(r.db, a, ids) == Doomed(origin, a, ids)
  {
    var ref := Ref(c, child.id, b, parent.id);
    OneReference({ref}, ref, origin, ids, a, parent, child);
    ForgottenUnder(Job(origin, ids, Restrict({ref}, ids)), a, b, c, parent, child);
  }

  /** The same, for any constraints of that kind. */
  lemma ForgottenUnder(j: Job, a: string, b: string, c: string, parent: Row, child: Row)
    requires a != b && b != c && a != c && Doomed(j.origin, a, j.ids) != {}
    requires parent in Doomed(j.origin, b, j.ids) && child in Doomed(j.origin, c, j.ids)
    requires forall r :: r in j.origin[c] && r.id == child.id ==> r == child
    requires HeldByOneRow(j, a, b, c, parent, child)
    ensures var r := Execute(j, [a, b, c]);
            && r.remaining == []
            && CountOf(r.counts, a) == |Doomed(j.origin, a, j.ids)| > 0
            && Doomed(r.db, a, j.ids) == Doomed(j.origin, a, j.ids)
  {
    var p0 := Progress(j.origin, map[], [], false, []);
    assert !j.blocks(j.origin, a);
    var p1 := Try(j, p0, a);
    assert p1.db == Delete(j.origin, a, j.ids);
    DeleteAt(j.origin, a, j.ids, b);
    assert child in p1.db[c];
    assert j.blocks(p1.db, b);
    var p2 := Try(j, p1, b);
    assert p2.db == j.origin && p2.still == [b];
    assert !j.blocks(j.origin, c);
    var p3 := Try(j, p2, c);
    assert p3.db == Delete(j.origin, c, j.ids);
    Unroll3(j, p0, a, b, c);
    FirstPass(j, [a, b, c]);
    SecondPassForgets(j, Result(p3.db, p3.counts, [b], p3.log), a, b, c, parent, child);
  }

  /** With the referencing rows gone, the second pass deletes b and is the last. */
  lemma SecondPassForgets(j: Job, r: Result, a: string, b: string, c: string, parent: Row, child: Row)
    requires a != b && b != c && a != c && r.remaining == [b] && r.db == Delete(j.origin, c, j.ids)
    requires HeldByOneRow(j, a, b, c, parent, child)
    requires parent in Doomed(j.origin, b, j.ids) && child in Doomed(j.origin, c, j.ids)
    requires forall x :: x in j.origin[c] && x.id == child.id ==> x == child
    ensures var end := Passes(j, MAX_PASSES - 1, r);
            && end.remaining == [] && CountOf(end.counts, a) == CountOf(r.counts, a)
            && Doomed(end.db, a, j.ids) == Doomed(j.origin, a, j.ids)
  {
    DeleteAt(j.origin, c, j.ids, b);
    DeleteAt(j.origin, c, j.ids, a);
    assert !j.blocks(r.db, b);
    var q0 := Progress(r.db, r.counts, [], false, r.log);
    var q := Try(j, q0, b);
    DeleteAt(r.db, b, j.ids, a);
    assert q.still == [];
    assert [b][1..] == [] && Pass(j, q, []) == q;
    assert Pass(j, q0, [b]) == q;
    RetryEnds(j, r, q);
  }

  lemma Unroll3(j: Job, p: Progress, a: string, b: string, c: string)
    ensures Pass(j, p, [a, b, c]) == Try(j, Try(j, Try(j, p, a), b), c)
  {
    assert [a, b, c][1..] == [b, c] && [b, c][1..] == [c] && [c][1..] == [];
    var p3 := Try(j, Try(j, Try(j, p, a), b), c);
    assert Pass(j, p3, []) == p3;
    assert Pass(j, Try(j, Try(j, p, a), b), [c]) == p3;
    assert Pass(j, Try(j, p, a), [b, c]) == p3;
  }

  lemma RetryEnds(j: Job, r: Result, q: Progress)
    requires r.remaining != [] && q.still == []
    requires q == Pass(j, Progress(r.db, r.counts, [], false, r.log), r.remaining)
    ensures Passes(j, MAX_PASSES - 1, r) == Result(q.db, q.counts, [], q.log)
  {
    assert Passes(j, MAX_PASSES - 2, Result(q.db, q.counts, [], q.log)) == Result(q.db, q.counts, [], q.log);
  }
}
