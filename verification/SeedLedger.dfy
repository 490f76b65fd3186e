/**
  The canonical seed script: users, the opening credit balance, the jobs and the one deduction for the
  completed job, each written only if it is not there yet, with commits in between. The script may be
  run any number of times and may die at any statement.
 */
module SeedLedger {
  import opened Wrappers

  const OPENING: int := 4000
  const COMPLETED_JOB_COST: int := -21
  const COMPLETED_JOB := "L501-JOB-0004"

  datatype User = User(id: nat, role: string)

  /** A `completed_job_deduction` row of the usage credit ledger. */
  datatype Deduction = Deduction(job: nat, delta: int, before: int, after: int)

  /** `balance` is the tenant's credit balance, None while it has no billing row. */
  datatype Db = Db(users: map<string, User>, balance: Option<int>, jobs: map<string, nat>, ledger: seq<Deduction>)

  const EMPTY := Db(map[], None, map[], [])

  /** One statement of the script; ids are the UUIDs drawn for rows that may have to be inserted. */
  datatype Op =
    | EnsureUser(email: string, role: string, id: nat)
    | EnsureBilling
    | EnsureJob(number: string, id: nat)
    | RecordDeduction
    | ApplyDeduction
    | Commit

  /** `pending` is the local variable `new_balance` between the two statements of the deduction. */
  datatype Session = Session(committed: Db, working: Db, pending: Option<int>)

  predicate HasDeduction(ledger: seq<Deduction>, job: nat) {
    exists d :: d in ledger && d.job == job
  }

  /** `get_or_create_user`; None is the ValueError for a role outside the registry. */
  function WithUser(users: map<string, User>, email: string, role: string, id: nat, roles: set<string>): Option<map<string, User>> {
    if role !in roles then None
    else if email in users then Some(users)
    else Some(users[email := User(id, role)])
  }

  /** One statement; None if it raises. */
  function Do(s: Session, op: Op, roles: set<string>): Option<Session> {
    var w := s.working;
    match op
    case EnsureUser(email, role, id) =>
      (match WithUser(w.users, email, role, id, roles)
       case None => None
       case Some(users) => Some(s.(working := w.(users := users))))
    case EnsureBilling =>
      if w.balance.Some? then Some(s) else Some(s.(working := w.(balance := Some(OPENING))))
    case EnsureJob(number, id) =>
      if number in w.jobs then Some(s) else Some(s.(working := w.(jobs := w.jobs[number := id])))
    case RecordDeduction =>
      if COMPLETED_JOB !in w.jobs then None
      else if HasDeduction(w.ledger, w.jobs[COMPLETED_JOB]) then Some(s.(pending := None))
      else if w.balance.None? then None
      else
        var b := w.balance.value;
        var d := Deduction(w.jobs[COMPLETED_JOB], COMPLETED_JOB_COST, b, b + COMPLETED_JOB_COST);
        Some(s.(working := w.(ledger := w.ledger + [d]), pending := Some(d.after)))
    case ApplyDeduction =>
      if s.pending.Some? then Some(Session(s.committed, w.(balance := s.pending), None)) else Some(s)
    case Commit => Some(s.(committed := w))
  }

  /** Statements in order, until one raises. */
  function DoAll(s: Session, ops: seq<Op>, roles: set<string>): Session
    decreases |ops|
  {
    if ops == [] then s
    else
      match Do(s, ops[0], roles)
      case None => s
      case Some(s') => DoAll(s', ops[1..], roles)
  }

  /** A run of the script on a database, dying after `died` statements at the latest: what it leaves committed. */
  function RunUntil(db: Db, script: seq<Op>, died: nat, roles: set<string>): Db {
    DoAll(Session(db, db, None), script[..if died <= |script| then died else |script|], roles).committed
  }

  // ---- The script -------------------------------------------------------------------------------------

  class Connection {
    var committed: Db

    method GetOrCreateUser(users: map<string, User>, email: string, role: string, newId: nat, roles: set<string>)
      returns (r: Option<(map<string, User>, nat)>)
      ensures r.Some? <==> role in roles
      ensures r.Some? ==> WithUser(users, email, role, newId, roles) == Some(r.value.0)
      ensures r.Some? ==> email in r.value.0 && r.value.0[email].id == r.value.1
      ensures r.Some? && email in users ==> r.value == (users, users[email].id)
      ensures r.Some? && email !in users ==> r.value == (users[email := User(newId, role)], newId)
    {
      if role !in roles {
        return None;
      }
      if email in users {
        return Some((users, users[email].id));
      }
      r := Some((users[email := User(newId, role)], newId));
    }

    /** The script up to the statement at which the process dies; nothing uncommitted survives. */
    method Run(script: seq<Op>, died: nat, roles: set<string>)
      modifies this
      ensures committed == RunUntil(old(committed), script, died, roles)
    {
      var n := if died <= |script| then died else |script|;
      var working, pending: Option<int> := committed, None;
      ghost var start := Session(committed, committed, None);
      var i := 0;
      while i < n
        invariant 0 <= i <= n
        invariant DoAll(start, script[..n], roles) == DoAll(Session(committed, working, pending), script[i..n], roles)
      {
        assert script[i..n][0] == script[i] && script[i..n][1..] == script[i + 1..n];
        var result := Do(Session(committed, working, pending), script[i], roles);
        if result.None? {
          return;
        }
        committed, working, pending := result.value.committed, result.value.working, result.value.pending;
        i := i + 1;
      }
    }
  }

  // ---- Exactly once ------------------------------------------------------------------------------------

  function Total(ledger: seq<Deduction>): int {
    if ledger == [] then 0 else Total(ledger[..|ledger| - 1]) + ledger[|ledger| - 1].delta
  }

  /**
    At most one deduction, it is the completed job's and takes 21 credits off 4000, and the balance is 4000
    plus the ledger.
   */
  ghost predicate Balanced(db: Db) {
    && |db.ledger| <= 1
    && (forall d :: d in db.ledger ==>
          "L501-JOB-0004" in db.jobs && d == Deduction(db.jobs["L501-JOB-0004"], -21, 4000, 3979))
    && (match db.balance
        case None => db.ledger == []
        case Some(b) => b == 4000 + Total(db.ledger))
  }

  /** Between the two statements of the deduction: the row is there, the balance still to be written. */
  ghost predicate Halfway(s: Session) {
    && s.pending.Some? && Balanced(s.working.(balance := s.pending)) && s.working.balance.Some?
  }

  ghost predicate Steady(s: Session) {
    Balanced(s.committed) && Balanced(s.working) && s.pending.None?
  }

  lemma OrdinaryStep(s: Session, op: Op, roles: set<string>)
    requires Steady(s) && !op.RecordDeduction?
    ensures Do(s, op, roles).Some? ==> Steady(Do(s, op, roles).value)
  {
  }

  lemma LedgerIsTheDeduction(db: Db)
    requires Balanced(db) && db.ledger != []
    ensures COMPLETED_JOB in db.jobs && HasDeduction(db.ledger, db.jobs[COMPLETED_JOB])
  {
    assert db.ledger[0] in db.ledger;
  }

  lemma FirstDeduction(db: Db, d: Deduction)
    requires Balanced(db) && db.ledger == [] && db.balance.Some? && COMPLETED_JOB in db.jobs
    requires d == Deduction(db.jobs[COMPLETED_JOB], COMPLETED_JOB_COST, db.balance.value, db.balance.value + COMPLETED_JOB_COST)
    ensures Balanced(db.(ledger := [d], balance := Some(d.after)))
  {
    assert [d][..0] == [];
    assert Total([d]) == d.delta;
  }

  lemma RecordStep(s: Session, roles: set<string>)
    requires Steady(s) && Do(s, RecordDeduction, roles).Some?
    ensures var s' := Do(s, RecordDeduction, roles).value;
            && s'.committed == s.committed
            && (Steady(s') || Halfway(s'))
  {
    var w := s.working;
    if w.ledger != [] {
      LedgerIsTheDeduction(w);
    } else {
      var s' := Do(s, RecordDeduction, roles).value;
      assert w.ledger + [s'.working.ledger[0]] == [s'.working.ledger[0]];
      FirstDeduction(w, s'.working.ledger[0]);
    }
  }

  lemma ApplyStep(s: Session, roles: set<string>)
    requires Balanced(s.committed) && Halfway(s)
    ensures Do(s, ApplyDeduction, roles).Some? && Steady(Do(s, ApplyDeduction, roles).value)
  {
  }

  /** The deduction's two statements always stand together, with no commit between them. */
  predicate Paired(script: seq<Op>) {
    forall i :: 0 <= i < |script| && script[i].RecordDeduction? ==> i + 1 < |script| ==> script[i + 1].ApplyDeduction?
  }

  lemma {:induction false} PairedRunsStayBalanced(s: Session, ops: seq<Op>, roles: set<string>)
    requires Steady(s) && Paired(ops)
    ensures Balanced(DoAll(s, ops, roles).committed)
    decreases |ops|
  {
    if ops != [] && Do(s, ops[0], roles).Some? {
      var s' := Do(s, ops[0], roles).value;
      PairedTail(ops);
      if ops[0].RecordDeduction? {
        RecordStep(s, roles);
        if Halfway(s') && |ops| > 1 {
          ApplyStep(s', roles);
          var s'' := Do(s', ops[1], roles).value;
          assert ops[1..][0] == ops[1];
          PairedTail(ops[1..]);
          PairedRunsStayBalanced(s'', ops[1..][1..], roles);
        } else if Halfway(s') {
          assert ops[1..] == [];
        } else {
          PairedRunsStayBalanced(s', ops[1..], roles);
        }
      } else {
        OrdinaryStep(s, ops[0], roles);
        PairedRunsStayBalanced(s', ops[1..], roles);
      }
    }
  }

  lemma PairedTail(ops: seq<Op>)
    requires ops != [] && Paired(ops)
    ensures Paired(ops[1..])
  {
    forall i | 0 <= i < |ops[1..]| && ops[1..][i].RecordDeduction?
      ensures i + 1 < |ops[1..]| ==> ops[1..][i + 1].ApplyDeduction?
    {
      assert ops[1..][i] == ops[i + 1];
    }
  }

  lemma PairedPrefix(ops: seq<Op>, n: nat)
    requires n <= |ops| && Paired(ops)
    ensures Paired(ops[..n])
  {
    forall i | 0 <= i < n && ops[..n][i].RecordDeduction? ensures i + 1 < n ==> ops[..n][i + 1].ApplyDeduction? {
      assert ops[i].RecordDeduction?;
    }
  }

  /** One run: its script (the ids differ from run to run) and where it died. */
  datatype Attempt = Attempt(script: seq<Op>, died: nat)

  function AfterRuns(db: Db, runs: seq<Attempt>, roles: set<string>): Db
    decreases |runs|
  {
    if runs == [] then db else AfterRuns(RunUntil(db, runs[0].script, runs[0].died, roles), runs[1..], roles)
  }

  /**
    Exactly-once deduction: after any number of runs, each dying anywhere, the committed ledger has at
    most one deduction and the balance is the opening balance plus the ledger.
   */
  lemma {:induction false} RunsDeductOnce(db: Db, runs: seq<Attempt>, roles: set<string>)
    requires Balanced(db) && forall r :: r in runs ==> Paired(r.script)
    ensures Balanced(AfterRuns(db, runs, roles))
    decreases |runs|
  {
    if runs != [] {
      var r := runs[0];
      var n := if r.died <= |r.script| then r.died else |r.script|;
      PairedPrefix(r.script, n);
      PairedRunsStayBalanced(Session(db, db, None), r.script[..n], roles);
      RunsDeductOnce(RunUntil(db, r.script, r.died, roles), runs[1..], roles);
    }
  }

  // ---- The script itself -------------------------------------------------------------------------------

  predicate OnlyUsers(ops: seq<Op>) {
    forall op :: op in ops ==> op.EnsureUser?
  }

  /** The statements that matter here, in order, with the commit points of the script. */
  function Script(users: seq<Op>, jobIds: seq<nat>): seq<Op>
    requires |jobIds| == 6
  {
    Prelude(users, jobIds) + [RecordDeduction, ApplyDeduction, Commit, Commit, Commit]
  }

  /** All that comes before the deduction. */
  function Prelude(users: seq<Op>, jobIds: seq<nat>): seq<Op>
    requires |jobIds| == 6
  {
    users + [Commit, Commit, EnsureBilling, Commit,
             EnsureJob("L501-JOB-0001", jobIds[0]), EnsureJob("L501-JOB-0002", jobIds[1]),
             EnsureJob("L501-JOB-0003", jobIds[2]), EnsureJob(COMPLETED_JOB, jobIds[3]),
             EnsureJob("L501-JOB-0005", jobIds[4]), EnsureJob("L501-JOB-0006", jobIds[5]),
             Commit]
  }

  lemma ScriptIsPaired(users: seq<Op>, jobIds: seq<nat>)
    requires OnlyUsers(users) && |jobIds| == 6
    ensures Paired(Script(users, jobIds))
  {
    var script := Script(users, jobIds);
    forall i | 0 <= i < |users| ensures script[i].EnsureUser? {
      assert script[i] == users[i] && users[i] in users;
    }
  }

  /** A statement that does not raise and is not the deduction. */
  predicate IsOrdinary(op: Op, roles: set<string>) {
    !op.RecordDeduction? && (op.EnsureUser? ==> op.role in roles)
  }

  ghost predicate Prepares(ops: seq<Op>, number: string) {
    exists id :: EnsureJob(number, id) in ops
  }

  ghost predicate Invites(ops: seq<Op>, email: string) {
    exists role, id :: EnsureUser(email, role, id) in ops
  }

  lemma OrdinaryStepAdds(s: Session, op: Op, roles: set<string>)
    requires IsOrdinary(op, roles)
    ensures Do(s, op, roles).Some?
    ensures var w := Do(s, op, roles).value.working;
            && (s.pending.None? && (s.working.balance.Some? || op.EnsureBilling?) ==> w.balance.Some?)
            && (forall n :: n in s.working.jobs ==> n in w.jobs && w.jobs[n] == s.working.jobs[n])
            && (op.EnsureJob? ==> op.number in w.jobs)
            && (op.EnsureJob? && op.number !in s.working.jobs ==> w.jobs[op.number] == op.id)
            && s.working.users.Keys <= w.users.Keys && (op.EnsureUser? ==> op.email in w.users)
  {
  }

  /** Ordinary statements all run, and leave the billing row and the jobs they ensure. */
  lemma {:induction false} OrdinaryRun(s: Session, ops: seq<Op>, rest: seq<Op>, roles: set<string>) returns (s': Session)
    requires Steady(s) && forall op :: op in ops ==> IsOrdinary(op, roles)
    ensures Steady(s') && DoAll(s, ops + rest, roles) == DoAll(s', rest, roles)
    ensures s.working.balance.Some? || EnsureBilling in ops ==> s'.working.balance.Some?
    ensures forall n :: n in s.working.jobs || Prepares(ops, n) ==> n in s'.working.jobs
    ensures forall n :: n in s.working.jobs ==> s'.working.jobs[n] == s.working.jobs[n]
    ensures forall e :: e in s.working.users || Invites(ops, e) ==> e in s'.working.users
    decreases |ops|
  {
    if ops == [] {
      assert ops + rest == rest;
      s' := s;
    } else {
      var op := ops[0];
      assert op in ops;
      OrdinaryStep(s, op, roles);
      OrdinaryStepAdds(s, op, roles);
      var next := Do(s, op, roles).value;
      assert (ops + rest)[1..] == ops[1..] + rest;
      s' := OrdinaryRun(next, ops[1..], rest, roles);
      forall n | Prepares(ops, n) ensures n in s'.working.jobs {
        var id :| EnsureJob(n, id) in ops;
        assert op == EnsureJob(n, id) || EnsureJob(n, id) in ops[1..];
      }
      forall e | Invites(ops, e) ensures e in s'.working.users {
        var role, id :| EnsureUser(e, role, id) in ops;
        assert op == EnsureUser(e, role, id) || EnsureUser(e, role, id) in ops[1..];
      }
    }
  }

  /** The deduction has been made, once: 21 credits off the 4000 for job L501-JOB-0004. */
  ghost predicate Deducted(db: Db) {
    && "L501-JOB-0004" in db.jobs && db.balance == Some(3979)
    && db.ledger == [Deduction(db.jobs["L501-JOB-0004"], -21, 4000, 3979)]
  }

  /** The first statement, then the others. */
  lemma DoFirst(s: Session, op: Op, rest: seq<Op>, roles: set<string>)
    requires Do(s, op, roles).Some?
    ensures DoAll(s, [op] + rest, roles) == DoAll(Do(s, op, roles).value, rest, roles)
  {
    assert ([op] + rest)[0] == op && ([op] + rest)[1..] == rest;
  }

  lemma RecordLeavesARow(s: Session, roles: set<string>)
    requires s.working.balance.Some? && COMPLETED_JOB in s.working.jobs
    ensures Do(s, RecordDeduction, roles).Some?
    ensures var w := Do(s, RecordDeduction, roles).value.working; w.ledger != [] && w.balance.Some?
  {
  }

  /** With a billing row and the completed job in place, the two statements leave a deduction. */
  lemma DeductionIsMade(s: Session, roles: set<string>)
    requires Steady(s) && s.working.balance.Some? && COMPLETED_JOB in s.working.jobs
    ensures Do(s, RecordDeduction, roles).Some?
    ensures var recorded := Do(s, RecordDeduction, roles).value;
            && Do(recorded, ApplyDeduction, roles).Some?
            && Steady(Do(recorded, ApplyDeduction, roles).value)
            && Deducted(Do(recorded, ApplyDeduction, roles).value.working)
  {
    RecordStep(s, roles);
    var recorded := Do(s, RecordDeduction, roles).value;
    RecordLeavesARow(s, roles);
    if Halfway(recorded) {
      ApplyStep(recorded, roles);
    }
    var w := Do(recorded, ApplyDeduction, roles).value.working;
    assert w.ledger == recorded.working.ledger;
    BalancedLedgerIsDeducted(w);
  }

  lemma BalancedLedgerIsDeducted(db: Db)
    requires Balanced(db) && db.ledger != [] && db.balance.Some?
    ensures Deducted(db)
  {
    assert db.ledger[..0] == [] && db.ledger[0] in db.ledger;
    assert Total(db.ledger) == COMPLETED_JOB_COST;
  }

  lemma CommitsOnly(s: Session, roles: set<string>)
    ensures DoAll(s, [Commit] + [Commit, Commit], roles).committed == s.working
  {
    var once := s.(committed := s.working);
    DoFirst(s, Commit, [Commit, Commit], roles);
    assert [Commit, Commit] == [Commit] + [Commit];
    DoFirst(once, Commit, [Commit], roles);
    assert [Commit] == [Commit] + [];
    DoFirst(once, Commit, [], roles);
    assert DoAll(once, [], roles) == once;
  }

  lemma DeductionRuns(s: Session, roles: set<string>)
    requires Steady(s) && s.working.balance.Some? && COMPLETED_JOB in s.working.jobs
    ensures var db := DoAll(s, [RecordDeduction] + ([ApplyDeduction] + ([Commit] + [Commit, Commit])), roles).committed;
            Deducted(db) && db.jobs == s.working.jobs && db.users == s.working.users
  {
    var commits := [Commit] + [Commit, Commit];
    DeductionIsMade(s, roles);
    var recorded := Do(s, RecordDeduction, roles).value;
    var applied := Do(recorded, ApplyDeduction, roles).value;
    DoFirst(s, RecordDeduction, [ApplyDeduction] + commits, roles);
    DoFirst(recorded, ApplyDeduction, commits, roles);
    CommitsOnly(applied, roles);
  }

  /** All six jobs are there. */
  predicate HasJobs(db: Db) {
    && "L501-JOB-0001" in db.jobs && "L501-JOB-0002" in db.jobs && "L501-JOB-0003" in db.jobs
    && "L501-JOB-0004" in db.jobs && "L501-JOB-0005" in db.jobs && "L501-JOB-0006" in db.jobs
  }

  lemma PreludeJobs(users: seq<Op>, jobIds: seq<nat>, i: nat)
    requires |jobIds| == 6 && |users| + 4 <= i < |users| + 10
    ensures var ops := Prelude(users, jobIds); ops[i].EnsureJob? && Prepares(ops, ops[i].number)
  {
    var ops := Prelude(users, jobIds);
    assert EnsureJob(ops[i].number, ops[i].id) in ops;
  }

  lemma PreludePrepares(users: seq<Op>, jobIds: seq<nat>)
    requires |jobIds| == 6
    ensures var ops := Prelude(users, jobIds);
            && EnsureBilling in ops
            && Prepares(ops, "L501-JOB-0001") && Prepares(ops, "L501-JOB-0002") && Prepares(ops, "L501-JOB-0003")
            && Prepares(ops, "L501-JOB-0004") && Prepares(ops, "L501-JOB-0005") && Prepares(ops, "L501-JOB-0006")
  {
    var ops, n := Prelude(users, jobIds), |users|;
    assert ops[n + 2] == EnsureBilling;
    PreludeJobs(users, jobIds, n + 4);
    PreludeJobs(users, jobIds, n + 5);
    PreludeJobs(users, jobIds, n + 6);
    PreludeJobs(users, jobIds, n + 7);
    PreludeJobs(users, jobIds, n + 8);
    PreludeJobs(users, jobIds, n + 9);
  }

  lemma PreludeIsOrdinary(users: seq<Op>, jobIds: seq<nat>, roles: set<string>)
    requires OnlyUsers(users) && |jobIds| == 6 && forall op :: op in users ==> IsOrdinary(op, roles)
    ensures forall op :: op in Prelude(users, jobIds) ==> IsOrdinary(op, roles)
    ensures forall e :: Invites(users, e) ==> Invites(Prelude(users, jobIds), e)
  {
    var ops := Prelude(users, jobIds);
    forall op | op in ops ensures IsOrdinary(op, roles) {
      var i :| 0 <= i < |ops| && ops[i] == op;
      if i < |users| {
        assert ops[i] == users[i];
      }
    }
    forall e | Invites(users, e) ensures Invites(ops, e) {
      var role, id :| EnsureUser(e, role, id) in users;
      assert EnsureUser(e, role, id) in ops;
    }
  }

  /**
    A run that is not cut short leaves exactly one deduction, whatever the runs before it did, all six jobs, and
    all the users it asks for.
   */
  lemma CompleteRunDeducts(db: Db, users: seq<Op>, jobIds: seq<nat>, roles: set<string>)
    requires Balanced(db) && OnlyUsers(users) && |jobIds| == 6
    requires forall op :: op in users ==> IsOrdinary(op, roles)
    ensures var end := RunUntil(db, Script(users, jobIds), |Script(users, jobIds)|, roles);
            Deducted(end) && HasJobs(end) && forall e :: Invites(users, e) ==> e in end.users
  {
    var script, prelude := Script(users, jobIds), Prelude(users, jobIds);
    var rest := [RecordDeduction] + ([ApplyDeduction] + ([Commit] + [Commit, Commit]));
    assert script == prelude + rest && script[..|script|] == script;
    PreludePrepares(users, jobIds);
    PreludeIsOrdinary(users, jobIds, roles);
    var s := OrdinaryRun(Session(db, db, None), prelude, rest, roles);
    DeductionRuns(s, roles);
  }

  /** One run of the script itself, with the users and ids of that run. */
  ghost predicate IsSeedRun(r: Attempt) {
    exists users: seq<Op>, jobIds: seq<nat> ::
      |jobIds| == 6 && OnlyUsers(users) && r.script == Script(users, jobIds)
  }

  /** From an empty database, the script's own runs never deduct twice and always balance. */
  lemma SeedDeductsOnce(runs: seq<Attempt>, roles: set<string>)
    requires forall r :: r in runs ==> IsSeedRun(r)
    ensures Balanced(AfterRuns(EMPTY, runs, roles))
  {
    forall r | r in runs ensures Paired(r.script) {
      var users: seq<Op>, jobIds: seq<nat> :| |jobIds| == 6 && OnlyUsers(users) && r.script == Script(users, jobIds);
      ScriptIsPaired(users, jobIds);
    }
    RunsDeductOnce(EMPTY, runs, roles);
  }

  /** A commit between the two statements would let a crash keep the row without the new balance. */
  lemma SplitDeductionUnbalances(s: Session, roles: set<string>)
    requires Steady(s) && COMPLETED_JOB in s.working.jobs && s.working.balance.Some?
    requires !HasDeduction(s.working.ledger, s.working.jobs[COMPLETED_JOB])
    ensures var recorded := Do(s, RecordDeduction, roles);
            recorded.Some? && !Balanced(Do(recorded.value, Commit, roles).value.committed)
  {
    if s.working.ledger != [] {
      LedgerIsTheDeduction(s.working);
    }
    var recorded := Do(s, RecordDeduction, roles).value;
    assert recorded.working.ledger[..0] == [];
  }

  // ---- Users ---------------------------------------------------------------------------------------------

  /** Users that were there are there unchanged. */
  ghost predicate KeepsUsers(before: Db, after: Db) {
    forall e :: e in before.users ==> e in after.users && after.users[e] == before.users[e]
  }

  lemma {:induction false} OpsKeepUsers(db: Db, s: Session, ops: seq<Op>, roles: set<string>)
    requires KeepsUsers(db, s.committed) && KeepsUsers(db, s.working)
    ensures KeepsUsers(db, DoAll(s, ops, roles).committed)
    decreases |ops|
  {
    if ops != [] && Do(s, ops[0], roles).Some? {
      OpsKeepUsers(db, Do(s, ops[0], roles).value, ops[1..], roles);
    }
  }

  /** No run ever changes the role, or anything else, of a user that already exists. */
  lemma {:induction false} RunsKeepUsers(db: Db, runs: seq<Attempt>, roles: set<string>)
    ensures KeepsUsers(db, AfterRuns(db, runs, roles))
    decreases |runs|
  {
    if runs != [] {
      var r := runs[0];
      var n := if r.died <= |r.script| then r.died else |r.script|;
      OpsKeepUsers(db, Session(db, db, None), r.script[..n], roles);
      RunsKeepUsers(RunUntil(db, r.script, r.died, roles), runs[1..], roles);
    }
  }

  /** A run's statement that asks for the user. */
  ghost predicate AsksForUser(runs: seq<Attempt>, email: string, u: User) {
    exists i, k :: 0 <= i < |runs| && 0 <= k < |runs[i].script| && runs[i].script[k] == EnsureUser(email, u.role, u.id)
  }

  /** Every user was in `before`, or has the id and the canonical role that a statement of the runs asks for. */
  ghost predicate UsersFrom(before: Db, after: Db, runs: seq<Attempt>, roles: set<string>) {
    forall e :: e in after.users ==>
      || (e in before.users && before.users[e] == after.users[e])
      || (AsksForUser(runs, e, after.users[e]) && after.users[e].role in roles)
  }

  lemma StepUsersFrom(db: Db, s: Session, op: Op, runs: seq<Attempt>, roles: set<string>, i: nat, k: nat)
    requires UsersFrom(db, s.committed, runs, roles) && UsersFrom(db, s.working, runs, roles)
    requires i < |runs| && k < |runs[i].script| && runs[i].script[k] == op && Do(s, op, roles).Some?
    ensures var s' := Do(s, op, roles).value;
            UsersFrom(db, s'.committed, runs, roles) && UsersFrom(db, s'.working, runs, roles)
  {
    if op.EnsureUser? {
      assert AsksForUser(runs, op.email, User(op.id, op.role));
    }
  }

  lemma {:induction false} OpsUsersFrom(db: Db, s: Session, runs: seq<Attempt>, roles: set<string>, i: nat, k: nat, n: nat)
    requires UsersFrom(db, s.committed, runs, roles) && UsersFrom(db, s.working, runs, roles)
    requires i < |runs| && k <= n <= |runs[i].script|
    ensures UsersFrom(db, DoAll(s, runs[i].script[k..n], roles).committed, runs, roles)
    decreases n - k
  {
    var ops := runs[i].script[k..n];
    if ops != [] && Do(s, ops[0], roles).Some? {
      StepUsersFrom(db, s, ops[0], runs, roles, i, k);
      assert ops[1..] == runs[i].script[k + 1..n];
      OpsUsersFrom(db, Do(s, ops[0], roles).value, runs, roles, i, k + 1, n);
    }
  }

  lemma {:induction false} RestUsersFrom(db: Db, now: Db, runs: seq<Attempt>, roles: set<string>, i: nat)
    requires i <= |runs| && UsersFrom(db, now, runs, roles)
    ensures UsersFrom(db, AfterRuns(now, runs[i..], roles), runs, roles)
    decreases |runs| - i
  {
    if i < |runs| {
      var r := runs[i];
      var n := if r.died <= |r.script| then r.died else |r.script|;
      assert r.script[..n] == r.script[0..n];
      OpsUsersFrom(db, Session(now, now, None), runs, roles, i, 0, n);
      assert runs[i..][0] == r && runs[i..][1..] == runs[i + 1..];
      RestUsersFrom(db, RunUntil(now, r.script, r.died, roles), runs, roles, i + 1);
    }
  }

  /** No run creates a user with a role, or an id, other than a statement for that address asks for. */
  lemma RunsCreateUsersAsAsked(db: Db, runs: seq<Attempt>, roles: set<string>)
    ensures UsersFrom(db, AfterRuns(db, runs, roles), runs, roles)
  {
    assert runs[0..] == runs;
    RestUsersFrom(db, db, runs, roles, 0);
  }
}
