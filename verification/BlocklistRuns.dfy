/** Whole runs of the blocklist: requests, admin calls and rebuilds in any order, time moving forward. */
module BlocklistRuns {
  import opened Cidr
  import opened Blocklist
  import opened BlocklistAdmin
  import opened BlocklistEffects
  import opened BlocklistCalls

  datatype Event =
    | Serve(req: Request, entries: seq<Row>, faults: Faults)
    | CreateBlock(order: Order, f: AdminFaults)
    | RevokeBlock(id: nat, f: AdminFaults)
    | RescopeBlock(id: nat, scope: string, f: AdminFaults)
    | Rebuild(added: set<nat>)
    | OldBlock(row: Row, f: AdminFaults)
    | OldUnblock(net: Text, f: AdminFaults)

  datatype Timed = Timed(at: int, event: Event)

  function Apply(w: World, t: Timed): World {
    match t.event
    case Serve(req, entries, f) => Dispatch(w, req, t.at, entries, f).0
    case CreateBlock(o, f) => Create(w, o, t.at, f)
    case RevokeBlock(id, f) => Revoke(w, id, t.at, f)
    case RescopeBlock(id, scope, f) => Rescope(w, id, scope, f)
    case Rebuild(added) => Warm(w, added)
    case OldBlock(r, f) => LegacyBlock(w, r, f)
    case OldUnblock(net, f) => LegacyUnblock(w, net, f)
  }

  ghost predicate FreshId(w: World, id: nat) {
    id !in w.rows && HitsFor(w.hits, id) == 0
  }

  /** What the database guarantees: a SELECT is answered truthfully, a new row gets an unused key. */
  ghost predicate Possible(w: World, t: Timed) {
    match t.event
    case Serve(req, entries, _) => Answers(w, req, entries)
    case CreateBlock(o, _) => FreshId(w, o.id)
    case OldBlock(r, _) => FreshId(w, r.id) && r.status == Active && r.hitCount == 0 && r.lastHitAt.None?
    case Rebuild(added) => added <= EnforcedIds(w.rows, t.at)
    case _ => true
  }

  /** The steps that keep a coherent index coherent. */
  predicate Safe(w: World, t: Timed) {
    match t.event
    case Serve(req, entries, f) => EvictionIsSafe(w, req, t.at, entries, f)
    case RevokeBlock(id, f) => RevokeIsSafe(w, id, t.at, f)
    case CreateBlock(o, f) =>
      Accepts(w, o) ==> var r := NewRow(o, t.at); InsertIsSafe(w, r, (r.kind, r.net), t.at, f)
    case OldBlock(r, f) => InsertIsSafe(w, r, (IpKind, r.net), t.at, f)
    case OldUnblock(net, f) => UnblockIsSafe(w, net, t.at, f)
    case Rebuild(added) => WarmIsSafe(w, added, t.at)
    case RescopeBlock(_, _, _) => true
  }

  /** Of all steps, the safe ones and only those keep the index coherent. */
  lemma StepCoherence(w: World, t: Timed)
    requires Possible(w, t) && Coherent(w, t.at)
    ensures Coherent(Apply(w, t), t.at) <==> Safe(w, t)
  {
    match t.event
    case Serve(req, entries, f) => DispatchCoherence(w, req, t.at, entries, f);
    case CreateBlock(o, f) =>
      if Accepts(w, o) {
        var r := NewRow(o, t.at);
        InsertCoherence(w, r, (r.kind, r.net), t.at, f);
      }
    case RevokeBlock(id, f) => RevokeCoherence(w, id, t.at, f);
    case RescopeBlock(id, scope, f) =>
      var w' := Apply(w, t);
      forall k | k in w'.rows && Enforced(w'.rows[k], t.at)
        ensures InIndex(w'.index, w'.rows[k].kind, w'.rows[k].net)
      {
        assert Enforced(w.rows[k], t.at);
      }
    case Rebuild(added) => WarmCoherence(w, added, t.at);
    case OldBlock(r, f) => InsertCoherence(w, r, (IpKind, r.net), t.at, f);
    case OldUnblock(net, f) => UnblockCoherence(w, net, t.at, f);
  }

  // ---- Runs ------------------------------------------------------------------------------------

  function End(w: World, run: seq<Timed>): World
    decreases |run|
  {
    if run == [] then w else End(Apply(w, run[0]), run[1..])
  }

  function Clock(start: int, run: seq<Timed>): int {
    if run == [] then start else run[|run| - 1].at
  }

  ghost predicate IsRun(w: World, start: int, run: seq<Timed>)
    decreases |run|
  {
    run == [] ||
    (start <= run[0].at && Possible(w, run[0]) && IsRun(Apply(w, run[0]), run[0].at, run[1..]))
  }

  ghost predicate AllSafe(w: World, run: seq<Timed>)
    decreases |run|
  {
    run == [] || (Safe(w, run[0]) && AllSafe(Apply(w, run[0]), run[1..]))
  }

  /** Index coherence over whole runs. */
  lemma {:induction false} RunKeepsCoherent(w: World, start: int, run: seq<Timed>)
    requires IsRun(w, start, run) && AllSafe(w, run) && Coherent(w, start)
    ensures Coherent(End(w, run), Clock(start, run))
    decreases |run|
  {
    if run != [] {
      var t := run[0];
      CoherentLater(w, start, t.at);
      StepCoherence(w, t);
      RunKeepsCoherent(Apply(w, t), t.at, run[1..]);
    }
  }

  /**
    The blocklist end to end: after a complete rebuild and any run of safe steps, with arbitrary faults on
    the way, a request is refused exactly when some active, unexpired, in-scope row covers its address -
    leaving aside prefixes stored as "ip" whose text is not in the CIDR set.
   */
  lemma EnforcedAfterAnyRun(w: World, start: int, run: seq<Timed>, now: int, req: Request, entries: seq<Row>)
    requires var warm := Warm(w, EnforcedIds(w.rows, start)); IsRun(warm, start, run) && AllSafe(warm, run)
    requires Clock(start, run) <= now
    requires Answers(End(Warm(w, EnforcedIds(w.rows, start)), run), req, entries)
    ensures var end := End(Warm(w, EnforcedIds(w.rows, start)), run);
            Dispatch(end, req, now, entries, NO_FAULTS).1.Blocked? <==>
            CheckedAddress(req).Some? &&
            exists id :: id in end.rows && Stops(end.rows[id], req, CheckedAddress(req).value, now)
                         && IsFound(end, end.rows[id])
  {
    var warm := Warm(w, EnforcedIds(w.rows, start));
    WarmIsExact(w, start);
    RunKeepsCoherent(warm, start, run);
    CoherentLater(End(warm, run), Clock(start, run), now);
    BlockedIffFound(End(warm, run), req, now, entries);
  }

  // ---- Runs in which requests and revocations are safe by themselves ----------------------------------

  /** A new row has the type of the rows that hold its text in the same set. */
  predicate AgreesWith(rows: map<nat, Row>, r: Row) {
    forall id :: id in rows && rows[id].net == r.net && SameSet(rows[id].kind, r.kind) ==> rows[id].kind == r.kind
  }

  /** What the writing calls have to observe: requests and revocations need no condition. */
  predicate WritesSafely(w: World, t: Timed) {
    match t.event
    case Serve(_, _, _) => true
    case RevokeBlock(_, _) => true
    case CreateBlock(o, f) => Safe(w, t) && (Accepts(w, o) && !f.commit ==> AgreesWith(w.rows, NewRow(o, t.at)))
    case OldBlock(r, f) => Safe(w, t) && (!f.commit ==> AgreesWith(w.rows, r))
    case _ => Safe(w, t)
  }

  ghost predicate AllWriteSafely(w: World, run: seq<Timed>)
    decreases |run|
  {
    run == [] || (WritesSafely(w, run[0]) && AllWriteSafely(Apply(w, run[0]), run[1..]))
  }

  lemma StepKeepsTypes(w: World, t: Timed)
    requires TypesAgree(w) && Possible(w, t) && WritesSafely(w, t)
    ensures TypesAgree(Apply(w, t))
  {
    match t.event
    case CreateBlock(o, f) =>
      if Accepts(w, o) {
        var r := NewRow(o, t.at);
        InsertKeepsTypes(w, r, (r.kind, r.net), f);
      }
    case OldBlock(r, f) => InsertKeepsTypes(w, r, (IpKind, r.net), f);
    case _ =>
      var w' := Apply(w, t);
      forall id | id in w'.rows ensures SameSlot(w, w', id) {
        StepKeepsSlots(w, t, id);
      }
  }

  /** The row was there before, with the same network and type. */
  ghost predicate SameSlot(w: World, w': World, id: nat)
    requires id in w'.rows
  {
    id in w.rows && w'.rows[id].kind == w.rows[id].kind && w'.rows[id].net == w.rows[id].net
  }

  lemma StepKeepsSlots(w: World, t: Timed, id: nat)
    requires !t.event.CreateBlock? && !t.event.OldBlock? && id in Apply(w, t).rows
    ensures SameSlot(w, Apply(w, t), id)
  {
    if t.event.Serve? {
      DispatchOnlyRetires(w, t.event.req, t.at, t.event.entries, t.event.faults, id);
    }
  }

  lemma InsertKeepsTypes(w: World, r: Row, slot: Slot, f: AdminFaults)
    requires TypesAgree(w) && r.id !in w.rows && (f.commit || AgreesWith(w.rows, r))
    ensures TypesAgree(Insert(w, r, slot, f))
  {
  }

  lemma {:induction false} AgreeingRunIsSafe(w: World, start: int, run: seq<Timed>)
    requires IsRun(w, start, run) && AllWriteSafely(w, run) && TypesAgree(w)
    ensures AllSafe(w, run)
    decreases |run|
  {
    if run != [] {
      var t := run[0];
      if t.event.Serve? {
        AgreeingEvictionIsSafe(w, t.event.req, t.at, t.event.entries, t.event.faults);
      } else if t.event.RevokeBlock? {
        AgreeingRevokeIsSafe(w, t.event.id, t.at, t.event.f);
      }
      StepKeepsTypes(w, t);
      AgreeingRunIsSafe(Apply(w, t), t.at, run[1..]);
    }
  }

  // ---- Runs without the older block call keep every row in the form that `create_ip_block` writes --------

  /** Only the older endpoint can store a type that is not that of its text. */
  predicate Tidy(t: Timed) {
    t.event.OldBlock? && !t.event.f.commit ==> t.event.row.kind == TypeOf(t.event.row.net)
  }

  lemma NewRowIsTyped(o: Order, now: int)
    requires ParseNetwork(o.text).Some?
    ensures NewRow(o, now).kind == TypeOf(NewRow(o, now).net)
  {
    CanonicalKeepsCoverage(o.text, Address(V4, 0));
  }

  lemma StepKeepsNormalised(w: World, t: Timed)
    requires Normalised(w) && Tidy(t)
    ensures Normalised(Apply(w, t))
    ensures Safe(w, t) ==> WritesSafely(w, t)
  {
    match t.event
    case Serve(req, entries, f) =>
      forall id | id in Apply(w, t).rows
        ensures Apply(w, t).rows[id].kind == TypeOf(Apply(w, t).rows[id].net)
      {
        DispatchOnlyRetires(w, req, t.at, entries, f, id);
      }
    case CreateBlock(o, f) =>
      if Accepts(w, o) {
        NewRowIsTyped(o, t.at);
      }
    case _ =>
  }

  /** Over such rows new rows always agree with the ones there, so the writing calls only have to be safe. */
  lemma {:induction false} RunKeepsNormalised(w: World, run: seq<Timed>)
    requires Normalised(w) && forall t :: t in run ==> Tidy(t)
    ensures Normalised(End(w, run)) && TypesAgree(End(w, run)) && AllFindable(End(w, run))
    decreases |run|
  {
    if run == [] {
      NormalisedRowsAgree(w);
    } else {
      StepKeepsNormalised(w, run[0]);
      RunKeepsNormalised(Apply(w, run[0]), run[1..]);
    }
  }

  /** The older endpoint stores a prefix as "ip". */
  predicate Mistypes(t: Timed) {
    t.event.OldBlock? && !t.event.f.commit && !Findable(t.event.row)
  }

  lemma StepKeepsFindable(w: World, t: Timed)
    requires AllFindable(w) && !Mistypes(t)
    ensures AllFindable(Apply(w, t))
  {
    match t.event
    case Serve(req, entries, f) =>
      forall id | id in Apply(w, t).rows ensures Findable(Apply(w, t).rows[id]) {
        DispatchOnlyRetires(w, req, t.at, entries, f, id);
      }
    case CreateBlock(o, f) =>
      if Accepts(w, o) {
        NewRowIsTyped(o, t.at);
      }
    case _ =>
  }

  /** Only the older endpoint can put a row out of reach. */
  lemma {:induction false} RunKeepsFindable(w: World, run: seq<Timed>)
    requires AllFindable(w) && forall t :: t in run ==> !Mistypes(t)
    ensures AllFindable(End(w, run))
    decreases |run|
  {
    if run != [] {
      StepKeepsFindable(w, run[0]);
      RunKeepsFindable(Apply(w, run[0]), run[1..]);
    }
  }

  /**
    In particular: if no prefix is ever stored as "ip" and rows of one text agree on its type, then after
    any run of requests, revocations and safe writes a request is refused exactly when some active,
    unexpired, in-scope row covers its address.
   */
  lemma CoveredAfterAgreeingRun(w: World, start: int, run: seq<Timed>, now: int, req: Request, entries: seq<Row>)
    requires TypesAgree(w) && AllFindable(w) && forall t :: t in run ==> !Mistypes(t)
    requires var warm := Warm(w, EnforcedIds(w.rows, start)); IsRun(warm, start, run) && AllWriteSafely(warm, run)
    requires Clock(start, run) <= now
    requires Answers(End(Warm(w, EnforcedIds(w.rows, start)), run), req, entries)
    ensures var end := End(Warm(w, EnforcedIds(w.rows, start)), run);
            Dispatch(end, req, now, entries, NO_FAULTS).1.Blocked? <==>
            CheckedAddress(req).Some? &&
            exists id :: id in end.rows && Stops(end.rows[id], req, CheckedAddress(req).value, now)
  {
    var warm := Warm(w, EnforcedIds(w.rows, start));
    AgreeingRunIsSafe(warm, start, run);
    RunKeepsFindable(warm, run);
    EnforcedAfterAnyRun(w, start, run, now, req, entries);
  }

  // ---- One active row for each network and tenant -----------------------------------------------------------

  lemma StepKeepsOneActive(w: World, t: Timed)
    requires OneActiveEach(w.rows) && Possible(w, t)
    ensures OneActiveEach(Apply(w, t).rows)
  {
    match t.event
    case CreateBlock(o, f) =>
      if Accepts(w, o) {
        var r := NewRow(o, t.at);
        InsertKeepsOneActive(w, r, (r.kind, r.net), f);
      }
    case OldBlock(r, f) => InsertKeepsOneActive(w, r, (IpKind, r.net), f);
    case _ =>
      forall id | id in Apply(w, t).rows ensures NoMoreActive(w, Apply(w, t), id) {
        StepRetiresOnly(w, t, id);
      }
  }

  /** The row was there before, for the same network and tenant, and is active only if it was. */
  ghost predicate NoMoreActive(w: World, w': World, id: nat)
    requires id in w'.rows
  {
    && id in w.rows && w'.rows[id].net == w.rows[id].net && w'.rows[id].tenant == w.rows[id].tenant
    && (w'.rows[id].status == Active ==> w.rows[id].status == Active)
  }

  lemma StepRetiresOnly(w: World, t: Timed, id: nat)
    requires !t.event.CreateBlock? && !t.event.OldBlock? && id in Apply(w, t).rows
    ensures NoMoreActive(w, Apply(w, t), id)
  {
    if t.event.Serve? {
      DispatchOnlyRetires(w, t.event.req, t.at, t.event.entries, t.event.faults, id);
    }
  }

  lemma InsertKeepsOneActive(w: World, r: Row, slot: Slot, f: AdminFaults)
    requires OneActiveEach(w.rows) && r.id !in w.rows
    ensures OneActiveEach(Insert(w, r, slot, f).rows)
  {
  }

  /** Over any run of all seven kinds of step, with any faults, safe or not. */
  lemma {:induction false} RunKeepsOneActive(w: World, start: int, run: seq<Timed>)
    requires IsRun(w, start, run) && OneActiveEach(w.rows)
    ensures OneActiveEach(End(w, run).rows)
    decreases |run|
  {
    if run != [] {
      StepKeepsOneActive(w, run[0]);
      RunKeepsOneActive(Apply(w, run[0]), run[0].at, run[1..]);
    }
  }

  // ---- Stamps and revocations over runs ----------------------------------------------------------------------

  lemma StepKeepsStamps(w: World, t: Timed)
    requires Keyed(w.rows) && Possible(w, t) && Stamped(w)
    ensures Stamped(Apply(w, t))
  {
    match t.event
    case Serve(req, entries, f) => DispatchKeepsStamps(w, req, t.at, entries, f);
    case CreateBlock(o, f) => NoHitsNoStamp(w.hits, o.id);
    case OldBlock(r, f) => NoHitsNoStamp(w.hits, r.id);
    case _ =>
  }

  /** Over any run with arbitrary faults, every row is stamped with the time of the last hit that names it. */
  lemma {:induction false} RunKeepsStamps(w: World, start: int, run: seq<Timed>)
    requires Keyed(w.rows) && IsRun(w, start, run) && Stamped(w)
    ensures Stamped(End(w, run))
    decreases |run|
  {
    if run != [] {
      StepKeepsStamps(w, run[0]);
      StepAccounts(w, run[0]);
      RunKeepsStamps(Apply(w, run[0]), run[0].at, run[1..]);
    }
  }

  /** Whatever happens later, a revoked row never stops a request again. */
  lemma RevokedForGood(w: World, id: nat, at: int, redis: bool, run: seq<Timed>, req: Request, a: Address, t: int)
    requires Keyed(w.rows) && id in w.rows && w.rows[id].status == Active
    requires IsRun(Revoke(w, id, at, AdminFaults(redis, false)), at, run)
    ensures var end := End(Revoke(w, id, at, AdminFaults(redis, false)), run);
            id in end.rows && end.rows[id].status == Revoked && !Stops(end.rows[id], req, a, t)
  {
    RunConservesHits(Revoke(w, id, at, AdminFaults(redis, false)), at, run);
  }

  // ---- What a row keeps over runs ----------------------------------------------------------------------------

  /** The step is a rescoping of the row that takes effect. */
  predicate Rescopes(t: Timed, id: nat) {
    t.event.RescopeBlock? && t.event.id == id && IsScope(t.event.scope) && !t.event.f.commit
  }

  /** The scope that the last effective rescoping of the run gave the row; without one, the scope it had. */
  function LastScope(scope: string, run: seq<Timed>, id: nat): string {
    if run == [] then scope
    else
      var last := run[|run| - 1];
      if Rescopes(last, id) then last.event.scope else LastScope(scope, run[..|run| - 1], id)
  }

  /** `r` became `r'`, by whatever: only its status, its counter and its stamps may differ, and its scope is the given one. */
  predicate SameBlock(r: Row, r': Row, scope: string) {
    && r'.id == r.id && r'.net == r.net && r'.kind == r.kind && r'.tenant == r.tenant && r'.isGlobal == r.isGlobal
    && r'.expiresAt == r.expiresAt && r'.createdAt == r.createdAt && r'.scope == scope
  }

  lemma StepKeepsBlock(w: World, t: Timed, id: nat)
    requires Keyed(w.rows) && Possible(w, t) && id in w.rows
    ensures var w' := Apply(w, t);
            id in w'.rows && SameBlock(w.rows[id], w'.rows[id], if Rescopes(t, id) then t.event.scope else w.rows[id].scope)
  {
    StepAccounts(w, t);
    match t.event
    case Serve(req, entries, f) => DispatchOnlyRetires(w, req, t.at, entries, f, id);
    case RescopeBlock(other, scope, f) => RescopeChangesOnly(w, other, scope, f);
    case _ =>
  }

  lemma {:induction false} LastScopeCons(scope: string, t: Timed, run: seq<Timed>, id: nat)
    ensures LastScope(scope, [t] + run, id) == LastScope(if Rescopes(t, id) then t.event.scope else scope, run, id)
    decreases |run|
  {
    if run == [] {
      assert [t] + run == [t];
      assert [t][..0] == [];
    } else {
      var init := run[..|run| - 1];
      assert ([t] + run)[..|run|] == [t] + init;
      LastScopeCons(scope, t, init, id);
    }
  }

  /**
    Over any run with arbitrary faults a block stays what it was made for: its network, type, tenant, rank and expiry
    never change, and its scope is that of the last committed rescoping to a known scope.
   */
  lemma {:induction false} RunKeepsBlock(w: World, start: int, run: seq<Timed>, id: nat)
    requires Keyed(w.rows) && IsRun(w, start, run) && id in w.rows
    ensures var end := End(w, run); id in end.rows && SameBlock(w.rows[id], end.rows[id], LastScope(w.rows[id].scope, run, id))
    decreases |run|
  {
    if run != [] {
      var t := run[0];
      StepAccounts(w, t);
      StepKeepsBlock(w, t, id);
      RunKeepsBlock(Apply(w, t), t.at, run[1..], id);
      assert run == [t] + run[1..];
      LastScopeCons(w.rows[id].scope, t, run[1..], id);
    }
  }

  // ---- Conservation of hits ---------------------------------------------------------------------

  /** How far a row's counter is ahead of its hit rows. */
  ghost function Drift(w: World, id: nat): int
    requires id in w.rows
  {
    w.rows[id].hitCount - HitsFor(w.hits, id)
  }

  function Refusals(w: World, run: seq<Timed>): nat
    decreases |run|
  {
    if run == [] then 0
    else (if run[0].event.Serve? &&
             Dispatch(w, run[0].event.req, run[0].at, run[0].event.entries, run[0].event.faults).1.Blocked?
          then 1 else 0) + Refusals(Apply(w, run[0]), run[1..])
  }

  /** Rows stay, keep their drift and never return to Active; new rows start with none. */
  ghost predicate Accounts(w: World, w': World) {
    && Keyed(w'.rows) && w.rows.Keys <= w'.rows.Keys
    && (forall id :: id in w.rows ==> Drift(w', id) == Drift(w, id))
    && (forall id :: id in w'.rows && id !in w.rows ==> Drift(w', id) == 0)
    && (forall id :: id in w.rows && w.rows[id].status != Active ==> w'.rows[id].status == w.rows[id].status)
  }

  lemma StepAccounts(w: World, t: Timed)
    requires Keyed(w.rows) && Possible(w, t)
    ensures Accounts(w, Apply(w, t))
    ensures !t.event.Serve? ==> Apply(w, t).hits == w.hits
  {
    match t.event
    case Serve(req, entries, f) =>
      DispatchRecordsHits(w, req, t.at, entries, f);
      ServeKeepsRetired(w, t);
    case CreateBlock(o, f) =>
      if Accepts(w, o) {
        var r := NewRow(o, t.at);
        InsertAccounts(w, r, (r.kind, r.net), f);
      }
    case OldBlock(r, f) => InsertAccounts(w, r, (IpKind, r.net), f);
    case _ =>
  }

  lemma InsertAccounts(w: World, r: Row, slot: Slot, f: AdminFaults)
    requires Keyed(w.rows) && FreshId(w, r.id) && r.hitCount == 0
    ensures Accounts(w, Insert(w, r, slot, f)) && Insert(w, r, slot, f).hits == w.hits
  {
  }

  lemma ServeKeepsRetired(w: World, t: Timed)
    requires t.event.Serve? && Keyed(w.rows) && Possible(w, t)
    ensures forall id :: id in w.rows && w.rows[id].status != Active && id in Apply(w, t).rows
                         ==> Apply(w, t).rows[id].status == w.rows[id].status
  {
    forall id | id in w.rows && w.rows[id].status != Active && id in Apply(w, t).rows
      ensures Apply(w, t).rows[id].status == w.rows[id].status
    {
      if CheckedAddress(t.event.req).Some? {
        LapsedById(w, t.event.req, t.at, t.event.entries, id);
      }
    }
  }

  /**
    Over any run with arbitrary faults: the hit rows written are exactly as many as the 403s sent,
    and each counter has moved by exactly the number of hit rows that name it.
   */
  lemma {:induction false} RunConservesHits(w: World, start: int, run: seq<Timed>)
    requires Keyed(w.rows) && IsRun(w, start, run)
    ensures Accounts(w, End(w, run))
    ensures |End(w, run).hits| == |w.hits| + Refusals(w, run)
    decreases |run|
  {
    if run != [] {
      var t := run[0];
      var next := Apply(w, t);
      StepAccounts(w, t);
      if t.event.Serve? {
        DispatchRecordsHits(w, t.event.req, t.at, t.event.entries, t.event.faults);
      }
      RunConservesHits(next, t.at, run[1..]);
      assert forall id :: id in w.rows ==> id in next.rows;
    }
  }
}
