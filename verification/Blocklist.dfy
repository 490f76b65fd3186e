/**
  The IP blocklist on the request path: PostgreSQL rows carrying scope, expiry and priority,
  and two Redis sets of network texts that decide whether the rows are looked at at all.

  One served request is one atomic step. What the step does is given here as functions on
  values; the class in BlocklistStore.dfy does the same work with loops and fields.
 */
module Blocklist {
  import opened Wrappers
  import opened Cidr

  datatype Status = Active | Expired | Revoked

  /**
    `entry_type`: "ip", "cidr", or any other text, which the older endpoint stores as given. The code
    picks the Redis set by asking for "ip", but compares types for equality when it decides to evict.
   */
  datatype Kind = IpKind | CidrKind | OtherKind(name: string)

  /** Rows of both types are indexed in the same Redis set. */
  predicate SameSet(a: Kind, b: Kind) {
    a.IpKind? <==> b.IpKind?
  }

  datatype Row = Row(
    id: nat, net: Text, kind: Kind, scope: string, tenant: Option<string>, isGlobal: bool,
    isActive: bool, status: Status, expiresAt: Option<int>, createdAt: int,
    hitCount: nat, lastHitAt: Option<int>)

  datatype Hit = Hit(
    blockId: nat, net: Text, at: int, path: string, verb: string,
    userAgent: Option<string>, scope: string)

  /** The Redis sets `ip_blocklist` and `cidr_blocklist`. */
  datatype Index = Index(ips: set<Text>, cidrs: set<Text>)

  datatype World = World(rows: map<nat, Row>, hits: seq<Hit>, index: Index)

  /** `client` is the text `get_client_ip` returned, None when it is empty. */
  datatype Request = Request(
    path: string, verb: string, client: Option<Text>, role: Option<string>,
    tenant: Option<string>, userAgent: Option<string>)

  type Slot = (Kind, Text)

  /** What goes wrong while one request is served. */
  datatype Faults = Faults(redisRead: bool, query: bool, evict: set<Slot>, commit: bool)

  const NO_FAULTS := Faults(false, false, {}, false)

  /**
    What becomes of a request. Passing it on is `guarded` when that happens inside the block whose
    exception handler passes the request on once more.
   */
  datatype Verdict = Blocked(reference: nat) | Passed(guarded: bool)

  const EXEMPT_PATHS: set<string> := {"/health", "/ready", "/metrics"}

  /** `IPBlocklistMiddleware._scope_matches`. */
  predicate ScopeMatches(scope: string, role: Option<string>, tenant: Option<string>,
                         entryTenant: Option<string>) {
    if scope == "all" then true
    else if scope == "admin" then
      role.Some? && (role.value == "super_admin" || "admin_" <= role.value)
    else if scope == "customer" || scope == "staff" then
      role == Some(scope) || (scope == "staff" && role == Some("technician"))
    else if scope == "tenant" then
      entryTenant.Some? && entryTenant.value != "" && tenant == entryTenant
    else false
  }

  /** The one scope that is about a role, if there is one. */
  function RoleScope(role: string): Option<string> {
    if role == "super_admin" || "admin_" <= role then Some("admin")
    else if role == "customer" then Some("customer")
    else if role == "staff" || role == "technician" then Some("staff")
    else None
  }

  /**
    Who a scope reaches: "all" everybody, "tenant" the requests of the row's tenant, and any other scope
    exactly the requests whose role belongs to it. Roles belong to one scope at most.
   */
  lemma ScopesReach(scope: string, role: Option<string>, tenant: Option<string>, entryTenant: Option<string>)
    ensures ScopeMatches(scope, role, tenant, entryTenant) <==>
            || scope == "all"
            || (scope == "tenant" && entryTenant.Some? && entryTenant.value != "" && tenant == entryTenant)
            || (role.Some? && RoleScope(role.value) == Some(scope))
  {
    assert "all"[1] == 'l' && "admin"[1] == 'd' && "tenant"[0] == 't' && "staff"[0] == 's' && "customer"[0] == 'c';
    if role.Some? && "admin_" <= role.value {
      assert role.value[0] == "admin_"[0] == 'a';
      assert "technician"[0] == 't';
    }
    assert "super_admin"[1] == 'u' && "staff"[1] == 't';
  }

  predicate InScope(r: Row, req: Request) {
    ScopeMatches(r.scope, req.role, req.tenant, r.tenant)
  }

  predicate Unexpired(r: Row, now: int) {
    r.expiresAt.None? || r.expiresAt.value > now
  }

  /** The rows that are meant to block: active and not past their expiry. */
  predicate Enforced(r: Row, now: int) {
    r.status == Active && Unexpired(r, now)
  }

  predicate InIndex(ix: Index, kind: Kind, net: Text) {
    if kind.IpKind? then net in ix.ips else net in ix.cidrs
  }

  // ---- Serving one request --------------------------------------------------------------------

  /** The texts the two Redis reads turn up for an address. */
  function Candidates(ix: Index, ip: Text, a: Address): set<Text> {
    (if ip in ix.ips then {ip} else {}) + (set t | t in ix.cidrs && Covers(t, a))
  }

  /** Global rows first, newest first within each group. */
  predicate Precedes(x: Row, y: Row) {
    (x.isGlobal && !y.isGlobal) || (x.isGlobal == y.isGlobal && x.createdAt >= y.createdAt)
  }

  predicate Selected(r: Row, candidates: set<Text>) {
    r.net in candidates && r.status == Active
  }

  /** A possible answer of the ordered SELECT; rows that tie may come in any order. */
  ghost predicate IsQueryResult(entries: seq<Row>, rows: map<nat, Row>, candidates: set<Text>) {
    && (forall i :: 0 <= i < |entries| ==>
          && entries[i].id in rows && rows[entries[i].id] == entries[i]
          && Selected(entries[i], candidates))
    && (forall id :: id in rows && Selected(rows[id], candidates) ==> rows[id] in entries)
    && (forall i, j :: 0 <= i < j < |entries| ==>
          entries[i].id != entries[j].id && Precedes(entries[i], entries[j]))
  }

  predicate IsMatch(r: Row, req: Request, now: int) {
    Unexpired(r, now) && InScope(r, req)
  }

  /** Where the row loop breaks: the first unexpired in-scope row, or the end. */
  function Winner(entries: seq<Row>, req: Request, now: int): (w: nat)
    ensures w <= |entries|
    ensures w < |entries| ==> IsMatch(entries[w], req, now)
    ensures forall i :: 0 <= i < w ==> !IsMatch(entries[i], req, now)
  {
    if entries == [] || IsMatch(entries[0], req, now) then 0
    else 1 + Winner(entries[1..], req, now)
  }

  /** The rows the loop marks expired: those past expiry that it meets before it breaks. */
  function Lapsed(entries: seq<Row>, req: Request, now: int): set<Row> {
    LapsedAmong(entries[..Winner(entries, req, now)], now)
  }

  function LapsedAmong(met: seq<Row>, now: int): set<Row> {
    set r | r in met && !Unexpired(r, now)
  }

  function Ids(rs: set<Row>): set<nat> {
    set r | r in rs :: r.id
  }

  function Slots(rs: set<Row>): set<Slot> {
    set r | r in rs :: (r.kind, r.net)
  }

  /** Some fetched row still enforces the slot, so its index entry must stay. */
  predicate SlotInUse(entries: seq<Row>, slot: Slot, now: int) {
    exists e :: e in entries && e.kind == slot.0 && e.net == slot.1 && Enforced(e, now)
  }

  function StaleSlots(entries: seq<Row>, req: Request, now: int): set<Slot> {
    set r | r in Lapsed(entries, req, now) && !SlotInUse(entries, (r.kind, r.net), now)
      :: (r.kind, r.net)
  }

  function Evict(ix: Index, slots: set<Slot>): Index {
    Index(set t | t in ix.ips && !Drops(slots, IpKind, t), set t | t in ix.cidrs && !Drops(slots, CidrKind, t))
  }

  /** Evicting the slots removes the text from the set of the given type. */
  predicate Drops(slots: set<Slot>, kind: Kind, net: Text) {
    exists s :: s in slots && s.1 == net && SameSet(s.0, kind)
  }

  function Expire(r: Row): Row {
    r.(status := Expired, isActive := false)
  }

  function Strike(r: Row, now: int): Row {
    r.(hitCount := r.hitCount + 1, lastHitAt := Some(now))
  }

  /** The rows after the session is flushed: lapsed ones expired, the matched one struck. */
  function Settle(rows: map<nat, Row>, lapsed: set<nat>, matched: Option<nat>, now: int): map<nat, Row> {
    map id | id in rows ::
      if id in lapsed then Expire(rows[id])
      else if matched == Some(id) then Strike(rows[id], now)
      else rows[id]
  }

  function HitOf(r: Row, req: Request, now: int): Hit {
    Hit(r.id, r.net, now, req.path, req.verb, req.userAgent, r.scope)
  }

  function LapsedIds(entries: seq<Row>, req: Request, now: int): set<nat> {
    Ids(Lapsed(entries, req, now))
  }

  /** The part of `dispatch` inside the database session; `entries` is what the SELECT returned. */
  function Enforce(w: World, req: Request, now: int, entries: seq<Row>, f: Faults): (World, Verdict) {
    var swept := w.(index := Evict(w.index, StaleSlots(entries, req, now) - f.evict));
    var i := Winner(entries, req, now);
    var matched := if i < |entries| then Some(entries[i].id) else None;
    if f.commit then (swept, Passed(false))  // the session rolls back; the removals from Redis stay
    else
      var settled := swept.(rows := Settle(w.rows, LapsedIds(entries, req, now), matched, now));
      if i < |entries| then
        (settled.(hits := w.hits + [HitOf(entries[i], req, now)]), Blocked(entries[i].id))
      else (settled, Passed(true))
  }

  /** The address under which a request is checked; None for exempt paths and unreadable clients. */
  function CheckedAddress(req: Request): Option<Address> {
    if req.path in EXEMPT_PATHS || req.client.None? then None else ParseAddress(req.client.value)
  }

  function RequestCandidates(ix: Index, req: Request): set<Text>
    requires CheckedAddress(req).Some?
  {
    Candidates(ix, req.client.value, CheckedAddress(req).value)
  }

  /** `IPBlocklistMiddleware.dispatch`. */
  function Dispatch(w: World, req: Request, now: int, entries: seq<Row>, f: Faults): (World, Verdict) {
    if CheckedAddress(req).None? || f.redisRead || RequestCandidates(w.index, req) == {} || f.query
    then (w, Passed(false))
    else Enforce(w, req, now, entries, f)
  }

  // ---- What the step means --------------------------------------------------------------------

  /** Rows are stored under their own id. */
  ghost predicate Keyed(rows: map<nat, Row>) {
    forall id :: id in rows ==> rows[id].id == id
  }

  /** Every enforced row's network text is in the Redis set for its entry type. */
  ghost predicate Coherent(w: World, now: int) {
    forall id :: id in w.rows && Enforced(w.rows[id], now) ==> InIndex(w.index, w.rows[id].kind, w.rows[id].net)
  }

  /** The type `create_ip_block` gives a text: "ip" for a bare address, else "cidr". */
  function TypeOf(net: Text): Kind {
    if net.Host? then IpKind else CidrKind
  }

  ghost predicate Normalised(w: World) {
    forall id :: id in w.rows ==> w.rows[id].kind == TypeOf(w.rows[id].net)
  }

  /** A row that should stop this request. */
  ghost predicate Stops(r: Row, req: Request, a: Address, now: int) {
    Enforced(r, now) && InScope(r, req) && Covers(r.net, a)
  }

  /** The entries handed to Dispatch answer the query that this request issues. */
  ghost predicate Answers(w: World, req: Request, entries: seq<Row>) {
    CheckedAddress(req).Some? ==> IsQueryResult(entries, w.rows, RequestCandidates(w.index, req))
  }

  lemma CandidateCovers(ix: Index, req: Request, t: Text)
    requires CheckedAddress(req).Some? && t in RequestCandidates(ix, req)
    ensures Covers(t, CheckedAddress(req).value)
  {
    HostCoversOnlyItself(CheckedAddress(req).value, CheckedAddress(req).value);
  }

  /**
    The verdict for every index, coherent or not: 403 exactly when some enforced in-scope row has
    its text among the candidates. In particular a request is never stopped by a row that does not
    cover its address.
   */
  lemma BlockedIffCandidateRow(w: World, req: Request, now: int, entries: seq<Row>)
    requires Answers(w, req, entries)
    ensures var (_, v) := Dispatch(w, req, now, entries, NO_FAULTS);
            v.Blocked? <==>
            CheckedAddress(req).Some? &&
            exists id :: id in w.rows && Stops(w.rows[id], req, CheckedAddress(req).value, now)
                         && w.rows[id].net in RequestCandidates(w.index, req)
  {
    if CheckedAddress(req).Some? {
      var c := RequestCandidates(w.index, req);
      var i := Winner(entries, req, now);
      forall id | id in w.rows && Enforced(w.rows[id], now) && InScope(w.rows[id], req) && w.rows[id].net in c
        ensures i < |entries|
      {
        assert w.rows[id] in entries;
        var k :| 0 <= k < |entries| && entries[k] == w.rows[id];
        assert IsMatch(entries[k], req, now);
      }
      if c != {} && i < |entries| {
        CandidateCovers(w.index, req, entries[i].net);
        assert Stops(w.rows[entries[i].id], req, CheckedAddress(req).value, now);
      }
    }
  }

  /** A row that is looked for in the Redis set that holds it: all but prefixes stored as "ip". */
  predicate Findable(r: Row) {
    !(r.kind.IpKind? && r.net.Prefixed?)
  }

  /** The two look-ups turn the row's text up. */
  predicate IsFound(w: World, r: Row) {
    Findable(r) || r.net in w.index.cidrs
  }

  lemma FoundIffCandidate(w: World, req: Request, now: int, id: nat)
    requires Coherent(w, now) && CheckedAddress(req).Some? && id in w.rows
    requires Stops(w.rows[id], req, CheckedAddress(req).value, now)
    ensures w.rows[id].net in RequestCandidates(w.index, req) <==> IsFound(w, w.rows[id])
  {
    var a := CheckedAddress(req).value;
    assert InIndex(w.index, w.rows[id].kind, w.rows[id].net);
    if w.rows[id].net.Host? {
      HostCoversOnlyItself(w.rows[id].net.address, a);
    }
  }

  /**
    Index refinement, exactly: over a coherent index a request is refused if and only if some row should
    stop it that is not a prefix stored as "ip", or is one whose text the CIDR set holds as well.
   */
  lemma BlockedIffFound(w: World, req: Request, now: int, entries: seq<Row>)
    requires Answers(w, req, entries) && Coherent(w, now)
    ensures Dispatch(w, req, now, entries, NO_FAULTS).1.Blocked? <==>
            CheckedAddress(req).Some? &&
            exists id :: id in w.rows && Stops(w.rows[id], req, CheckedAddress(req).value, now) && IsFound(w, w.rows[id])
  {
    BlockedIffCandidateRow(w, req, now, entries);
    if CheckedAddress(req).Some? {
      forall id | id in w.rows && Stops(w.rows[id], req, CheckedAddress(req).value, now)
        ensures w.rows[id].net in RequestCandidates(w.index, req) <==> IsFound(w, w.rows[id])
      {
        FoundIffCandidate(w, req, now, id);
      }
    }
  }

  ghost predicate AllFindable(w: World) {
    forall id :: id in w.rows ==> Findable(w.rows[id])
  }

  /** So unless a prefix is stored as "ip", the two look-ups decide the same question as reading every row. */
  lemma BlockedIffCovered(w: World, req: Request, now: int, entries: seq<Row>)
    requires Answers(w, req, entries) && Coherent(w, now) && AllFindable(w)
    ensures var (_, v) := Dispatch(w, req, now, entries, NO_FAULTS);
            v.Blocked? <==>
            CheckedAddress(req).Some? &&
            exists id :: id in w.rows && Stops(w.rows[id], req, CheckedAddress(req).value, now)
  {
    BlockedIffFound(w, req, now, entries);
  }

  /**
    A prefix stored as "ip" sits in the set that is only asked for exact addresses. When the rows that
    should stop a request are all of this kind, it is stopped if and only if the text of one of them is
    in the CIDR set too, by way of some other row.
   */
  lemma MistypedPrefixEnforcedIff(w: World, req: Request, now: int, entries: seq<Row>)
    requires Answers(w, req, entries) && Coherent(w, now) && CheckedAddress(req).Some?
    requires forall id :: id in w.rows && Stops(w.rows[id], req, CheckedAddress(req).value, now) ==> !Findable(w.rows[id])
    ensures Dispatch(w, req, now, entries, NO_FAULTS).1.Blocked? <==>
            exists id :: id in w.rows && Stops(w.rows[id], req, CheckedAddress(req).value, now)
                         && w.rows[id].net in w.index.cidrs
  {
    BlockedIffFound(w, req, now, entries);
  }

  /** One such row alone is in its Redis set, should stop the request, and lets it pass. */
  lemma MistypedPrefixIsNotEnforced(r: Row, req: Request, now: int)
    requires !Findable(r) && CheckedAddress(req).Some?
    requires Stops(r, req, CheckedAddress(req).value, now)
    ensures var w := World(map[r.id := r], [], Index({r.net}, {}));
            && Coherent(w, now) && Answers(w, req, [])
            && Dispatch(w, req, now, [], NO_FAULTS).1.Passed?
  {
  }

  /** The request is passed on inside the guarded block exactly when candidates were found and no row stops it. */
  lemma GuardedIff(w: World, req: Request, now: int, entries: seq<Row>, f: Faults)
    requires Answers(w, req, entries)
    ensures Dispatch(w, req, now, entries, f).1 == Passed(true) <==>
            && ReachesRows(req, f) && !f.commit && RequestCandidates(w.index, req) != {}
            && forall id :: id in w.rows && w.rows[id].net in RequestCandidates(w.index, req)
                            ==> !Stops(w.rows[id], req, CheckedAddress(req).value, now)
  {
    BlockedIffCandidateRow(w, req, now, entries);
    if CheckedAddress(req).Some? {
      assert Dispatch(w, req, now, entries, NO_FAULTS).1.Blocked? ==> RequestCandidates(w.index, req) != {};
    }
  }

  /** Any fault whatever lets the request through; no fault can block one. */
  lemma FaultsFailOpen(w: World, req: Request, now: int, entries: seq<Row>, f: Faults)
    ensures f.redisRead || f.query || f.commit ==> Dispatch(w, req, now, entries, f).1 == Passed(false)
    ensures Dispatch(w, req, now, entries, f).1.Blocked? ==>
              Dispatch(w, req, now, entries, f).1 == Dispatch(w, req, now, entries, NO_FAULTS).1
  {
  }

  /** The rows with the lapsed slot are all among the fetched ones, because they share its text. */
  lemma EvictionSparesEnforcedRows(w: World, req: Request, now: int, entries: seq<Row>, id: nat)
    requires CheckedAddress(req).Some? && Answers(w, req, entries)
    requires id in w.rows && Enforced(w.rows[id], now)
    ensures (w.rows[id].kind, w.rows[id].net) !in StaleSlots(entries, req, now)
  {
    var r := w.rows[id];
    forall l | l in Lapsed(entries, req, now) && l.kind == r.kind && l.net == r.net
      ensures SlotInUse(entries, (r.kind, r.net), now)
    {
      var k :| 0 <= k < |entries| && entries[k] == l;
      assert r in entries;
    }
  }

  /** A request leaves a row's network and type alone and never brings a row back to Active. */
  lemma DispatchOnlyRetires(w: World, req: Request, now: int, entries: seq<Row>, f: Faults, id: nat)
    requires id in Dispatch(w, req, now, entries, f).0.rows
    ensures var r' := Dispatch(w, req, now, entries, f).0.rows[id];
            && id in w.rows && r'.net == w.rows[id].net && r'.kind == w.rows[id].kind
            && r'.scope == w.rows[id].scope && r'.tenant == w.rows[id].tenant && r'.expiresAt == w.rows[id].expiresAt
            && r'.isGlobal == w.rows[id].isGlobal && r'.createdAt == w.rows[id].createdAt
            && (r'.status == w.rows[id].status || r'.status == Expired)
  {
  }

  /** The request gets as far as the removals from Redis. */
  predicate ReachesRows(req: Request, f: Faults) {
    CheckedAddress(req).Some? && !f.redisRead && !f.query
  }

  /** A stale slot that Redis lets go carries the text of an enforced row of another type, kept in the same set. */
  predicate EvictsAnother(w: World, req: Request, now: int, entries: seq<Row>, f: Faults, id: nat)
    requires id in w.rows
  {
    Enforced(w.rows[id], now) && exists s ::
      s in StaleSlots(entries, req, now) - f.evict && s.1 == w.rows[id].net
      && s.0 != w.rows[id].kind && SameSet(s.0, w.rows[id].kind)
  }

  predicate EvictionIsSafe(w: World, req: Request, now: int, entries: seq<Row>, f: Faults) {
    ReachesRows(req, f) ==> forall id :: id in w.rows ==> !EvictsAnother(w, req, now, entries, f, id)
  }

  /** Enforced rows stay enforced through a request. */
  lemma EnforcedStays(w: World, req: Request, now: int, entries: seq<Row>, f: Faults, id: nat)
    requires Answers(w, req, entries) && id in w.rows && Enforced(w.rows[id], now)
    ensures var w' := Dispatch(w, req, now, entries, f).0;
            id in w'.rows && Enforced(w'.rows[id], now)
            && w'.rows[id].net == w.rows[id].net && w'.rows[id].kind == w.rows[id].kind
  {
    if CheckedAddress(req).Some? {
      EnforcedIsNotLapsed(w, req, now, entries, id);
    }
  }

  lemma EnforcedIsNotLapsed(w: World, req: Request, now: int, entries: seq<Row>, id: nat)
    requires CheckedAddress(req).Some? && Answers(w, req, entries) && id in w.rows && Unexpired(w.rows[id], now)
    ensures id !in LapsedIds(entries, req, now)
  {
    forall l | l in Lapsed(entries, req, now) ensures l.id != id {
      var k :| 0 <= k < |entries| && entries[k] == l;
    }
  }

  /** The index of a request that gets to the removals. */
  lemma DispatchIndex(w: World, req: Request, now: int, entries: seq<Row>, f: Faults)
    requires Answers(w, req, entries)
    ensures Dispatch(w, req, now, entries, f).0.index ==
            if ReachesRows(req, f) then Evict(w.index, StaleSlots(entries, req, now) - f.evict) else w.index
  {
    if ReachesRows(req, f) && RequestCandidates(w.index, req) == {} {
      assert Lapsed(entries, req, now) == {};
      assert Evict(w.index, {}) == w.index;
    }
  }

  /** A row's index entry is gone after the request exactly when another type's slot took it along. */
  lemma EntryLostIff(w: World, req: Request, now: int, entries: seq<Row>, f: Faults, id: nat)
    requires Answers(w, req, entries) && ReachesRows(req, f)
    requires id in w.rows && Enforced(w.rows[id], now) && InIndex(w.index, w.rows[id].kind, w.rows[id].net)
    ensures InIndex(Dispatch(w, req, now, entries, f).0.index, w.rows[id].kind, w.rows[id].net)
            <==> !EvictsAnother(w, req, now, entries, f, id)
  {
    DispatchIndex(w, req, now, entries, f);
    EvictionSparesEnforcedRows(w, req, now, entries, id);
    var r, stale := w.rows[id], StaleSlots(entries, req, now) - f.evict;
    assert InIndex(Evict(w.index, stale), r.kind, r.net) <==> !Drops(stale, r.kind, r.net);
    forall s | s in stale && s.1 == r.net ensures s.0 != r.kind {
    }
  }

  /**
    Exactly when a request keeps the index coherent, under every combination of faults, in particular
    when the session rolls back after the removals from Redis were made.
   */
  lemma DispatchCoherence(w: World, req: Request, now: int, entries: seq<Row>, f: Faults)
    requires Answers(w, req, entries) && Coherent(w, now)
    ensures Coherent(Dispatch(w, req, now, entries, f).0, now) <==> EvictionIsSafe(w, req, now, entries, f)
  {
    var w' := Dispatch(w, req, now, entries, f).0;
    if ReachesRows(req, f) {
      forall id | id in w'.rows && Enforced(w'.rows[id], now)
        ensures id in w.rows && Enforced(w.rows[id], now)
        ensures w'.rows[id].net == w.rows[id].net && w'.rows[id].kind == w.rows[id].kind
      {
        DispatchOnlyRetires(w, req, now, entries, f, id);
      }
      forall id | id in w.rows && Enforced(w.rows[id], now)
        ensures id in w'.rows && Enforced(w'.rows[id], now)
        ensures InIndex(w'.index, w.rows[id].kind, w.rows[id].net) <==> !EvictsAnother(w, req, now, entries, f, id)
      {
        EnforcedStays(w, req, now, entries, f, id);
        EntryLostIff(w, req, now, entries, f, id);
      }
    }
  }

  /** Rows that share a text within one Redis set share its type. */
  ghost predicate TypesAgree(w: World) {
    forall i, k ::
      i in w.rows && k in w.rows && w.rows[i].net == w.rows[k].net && SameSet(w.rows[i].kind, w.rows[k].kind) ==>
        w.rows[i].kind == w.rows[k].kind
  }

  /** Over such rows every request is safe. */
  lemma AgreeingEvictionIsSafe(w: World, req: Request, now: int, entries: seq<Row>, f: Faults)
    requires Answers(w, req, entries) && TypesAgree(w)
    ensures EvictionIsSafe(w, req, now, entries, f)
  {
    if ReachesRows(req, f) {
      forall l | l in Lapsed(entries, req, now) ensures l.id in w.rows && w.rows[l.id] == l {
        var k :| 0 <= k < |entries| && entries[k] == l;
      }
      forall id | id in w.rows ensures !EvictsAnother(w, req, now, entries, f, id) {
        forall s | s in StaleSlots(entries, req, now) && s.1 == w.rows[id].net && SameSet(s.0, w.rows[id].kind)
          ensures s.0 == w.rows[id].kind
        {
          var l :| l in Lapsed(entries, req, now) && s == (l.kind, l.net);
        }
      }
    }
  }

  /** If every row has the type of its text, rows agree and none is out of reach. */
  lemma NormalisedRowsAgree(w: World)
    requires Normalised(w)
    ensures TypesAgree(w) && AllFindable(w)
  {
  }

  /**
    With three types in use it happens: a lapsed row of one odd type takes the index entry of an
    enforced row of another with it, and from then on traffic that row should stop is let through.
   */
  lemma OddTypeUncovers(x: Row, y: Row, req: Request, now: int)
    requires CheckedAddress(req).Some? && x.id != y.id && Precedes(x, y)
    requires !x.kind.IpKind? && !y.kind.IpKind? && x.kind != y.kind && x.net == y.net
    requires x.status == Active && !Unexpired(x, now) && Stops(y, req, CheckedAddress(req).value, now)
    ensures var w := World(map[x.id := x, y.id := y], [], Index({}, {y.net}));
            && Answers(w, req, [x, y]) && Coherent(w, now)
            && (var (w', v) := Dispatch(w, req, now, [x, y], NO_FAULTS);
                v == Blocked(y.id) && !Coherent(w', now) && Dispatch(w', req, now, [], NO_FAULTS).1.Passed?)
  {
    var w := World(map[x.id := x, y.id := y], [], Index({}, {y.net}));
    TwoRowsAnswer(w, x, y, req);
    OddSlotIsStale(x, y, req, now);
    DispatchIndex(w, req, now, [x, y], NO_FAULTS);
    EnforcedStays(w, req, now, [x, y], NO_FAULTS, y.id);
    assert Evict(w.index, StaleSlots([x, y], req, now) - {}) == Index({}, {});
  }

  lemma TwoRowsAnswer(w: World, x: Row, y: Row, req: Request)
    requires CheckedAddress(req).Some? && x.id != y.id && Precedes(x, y)
    requires w == World(map[x.id := x, y.id := y], [], Index({}, {y.net}))
    requires x.net == y.net && x.status == Active && y.status == Active && Covers(y.net, CheckedAddress(req).value)
    ensures RequestCandidates(w.index, req) == {y.net} && Answers(w, req, [x, y])
  {
    assert RequestCandidates(w.index, req) == {y.net};
    assert [x, y][0] == x && [x, y][1] == y;
  }

  lemma OddSlotIsStale(x: Row, y: Row, req: Request, now: int)
    requires !Unexpired(x, now) && IsMatch(y, req, now) && x.kind != y.kind
    ensures Winner([x, y], req, now) == 1 && (x.kind, x.net) in StaleSlots([x, y], req, now)
  {
    var entries := [x, y];
    assert entries[0] == x && entries[1] == y;
    assert Winner(entries, req, now) == 1;
    assert entries[..1] == [x];
    assert x in Lapsed(entries, req, now);
  }

  /** Coherence now is coherence later: rows only stop being enforced as time passes. */
  lemma CoherentLater(w: World, now: int, later: int)
    requires Coherent(w, now) && now <= later
    ensures Coherent(w, later)
  {
    forall id | id in w.rows && Enforced(w.rows[id], later)
      ensures Enforced(w.rows[id], now)
    {
    }
  }

  /** The matched row precedes every other enforced in-scope candidate, in the order of the query. */
  lemma {:induction false} MatchPrecedesAll(rows: map<nat, Row>, c: set<Text>, req: Request, now: int, entries: seq<Row>, id: nat)
    requires IsQueryResult(entries, rows, c)
    requires id in rows && rows[id].net in c && Enforced(rows[id], now) && InScope(rows[id], req)
    ensures var i := Winner(entries, req, now);
            i < |entries| && Precedes(entries[i], rows[id])
  {
    var i := Winner(entries, req, now);
    assert rows[id] in entries;
    var k :| 0 <= k < |entries| && entries[k] == rows[id];
    assert IsMatch(entries[k], req, now);
    assert i <= k;
  }

  lemma LapsedById(w: World, req: Request, now: int, entries: seq<Row>, id: nat)
    requires CheckedAddress(req).Some? && Answers(w, req, entries) && Keyed(w.rows) && id in w.rows
    ensures id in LapsedIds(entries, req, now) <==> w.rows[id] in Lapsed(entries, req, now)
    ensures id in LapsedIds(entries, req, now) ==>
              Selected(w.rows[id], RequestCandidates(w.index, req)) && !Unexpired(w.rows[id], now)
  {
    if id in LapsedIds(entries, req, now) {
      var l :| l in Lapsed(entries, req, now) && l.id == id;
      var k :| 0 <= k < |entries| && entries[k] == l;
    }
  }

  /**
    Winner selection. The block reference names the row that comes first, global before scoped and
    newer before older, among the enforced in-scope candidates.
   */
  lemma WinnerIsFirst(w: World, req: Request, now: int, entries: seq<Row>)
    requires CheckedAddress(req).Some? && Answers(w, req, entries)
    requires Dispatch(w, req, now, entries, NO_FAULTS).1.Blocked?
    ensures var ref := Dispatch(w, req, now, entries, NO_FAULTS).1.reference;
            var c := RequestCandidates(w.index, req);
            && ref in w.rows && w.rows[ref].net in c && Enforced(w.rows[ref], now) && InScope(w.rows[ref], req)
            && (forall id ::
                  id in w.rows && w.rows[id].net in c && Enforced(w.rows[id], now) && InScope(w.rows[id], req)
                  ==> Precedes(w.rows[ref], w.rows[id]))
  {
    var ref := Dispatch(w, req, now, entries, NO_FAULTS).1.reference;
    forall id | id in w.rows && w.rows[id].net in RequestCandidates(w.index, req)
                && Enforced(w.rows[id], now) && InScope(w.rows[id], req)
      ensures Precedes(w.rows[ref], w.rows[id])
    {
      MatchPrecedesAll(w.rows, RequestCandidates(w.index, req), req, now, entries, id);
    }
  }

  /**
    Exactly the lapsed candidates that the loop met before its match turn Expired; every other row
    keeps its status, so no request ever reactivates a row or touches one behind the match.
   */
  lemma StatusChangesAreTheLapsed(w: World, req: Request, now: int, entries: seq<Row>, id: nat)
    requires CheckedAddress(req).Some? && Answers(w, req, entries) && Keyed(w.rows) && id in w.rows
    ensures var rows' := Dispatch(w, req, now, entries, NO_FAULTS).0.rows;
            && id in rows'
            && (rows'[id].status != w.rows[id].status <==> w.rows[id] in Lapsed(entries, req, now))
            && (rows'[id].status != w.rows[id].status ==> w.rows[id].status == Active && rows'[id].status == Expired)
  {
    LapsedById(w, req, now, entries, id);
  }

  // ---- Hits -----------------------------------------------------------------------------------

  function HitsFor(hits: seq<Hit>, id: nat): (n: nat)
    ensures n <= |hits|
  {
    if hits == [] then 0
    else HitsFor(hits[..|hits| - 1], id) + (if hits[|hits| - 1].blockId == id then 1 else 0)
  }

  lemma HitsForAppend(hits: seq<Hit>, h: Hit, id: nat)
    ensures HitsFor(hits + [h], id) == HitsFor(hits, id) + (if h.blockId == id then 1 else 0)
  {
    assert (hits + [h])[..|hits|] == hits;
  }

  lemma DispatchStrikesTheMatch(w: World, req: Request, now: int, entries: seq<Row>, f: Faults, id: nat)
    requires Answers(w, req, entries) && id in w.rows
    ensures var (w', v) := Dispatch(w, req, now, entries, f);
            && id in w'.rows && w'.rows[id].id == w.rows[id].id
            && w'.rows[id].hitCount == w.rows[id].hitCount + (if v == Blocked(id) then 1 else 0)
            && w'.rows[id].lastHitAt == (if v == Blocked(id) then Some(now) else w.rows[id].lastHitAt)
  {
    var i := Winner(entries, req, now);
    if CheckedAddress(req).Some? && i < |entries| && entries[i].id == id {
      assert w.rows[id] == entries[i];
      EnforcedIsNotLapsed(w, req, now, entries, id);
    }
  }

  /** A refusal appends one hit that says which block refused what request when; nothing else appends any. */
  lemma DispatchAppendsTheHit(w: World, req: Request, now: int, entries: seq<Row>, f: Faults)
    requires Answers(w, req, entries)
    ensures var (w', v) := Dispatch(w, req, now, entries, f);
            if v.Blocked? then
              v.reference in w.rows &&
              w'.hits == w.hits + [Hit(v.reference, w.rows[v.reference].net, now, req.path, req.verb,
                                       req.userAgent, w.rows[v.reference].scope)]
            else w'.hits == w.hits
  {
  }

  /** From one state to the next: the hit rows and the counters agree with the verdict. */
  ghost predicate Records(w: World, w': World, v: Verdict, now: int) {
    && Keyed(w'.rows) && w'.rows.Keys == w.rows.Keys
    && (v.Blocked? <==> w'.hits != w.hits)
    && (v.Blocked? ==> |w'.hits| == |w.hits| + 1 && w.hits <= w'.hits
                       && w'.hits[|w.hits|].blockId == v.reference && w'.hits[|w.hits|].at == now)
    && (forall id :: id in w.rows ==>
          w'.rows[id].hitCount - HitsFor(w'.hits, id) == w.rows[id].hitCount - HitsFor(w.hits, id))
    && (forall id :: id !in w.rows ==> HitsFor(w'.hits, id) == HitsFor(w.hits, id))
  }

  lemma DispatchKeepsKeys(w: World, req: Request, now: int, entries: seq<Row>, f: Faults)
    requires Answers(w, req, entries)
    ensures var (w', v) := Dispatch(w, req, now, entries, f);
            w'.rows.Keys == w.rows.Keys && (v.Blocked? ==> v.reference in w.rows)
  {
  }

  /**
    Under any faults: a 403 goes out exactly when one hit row was committed, that row names the
    block the response refers to, and every counter moves with its hit rows.
   */
  lemma DispatchRecordsHits(w: World, req: Request, now: int, entries: seq<Row>, f: Faults)
    requires Keyed(w.rows) && Answers(w, req, entries)
    ensures Records(w, Dispatch(w, req, now, entries, f).0, Dispatch(w, req, now, entries, f).1, now)
  {
    DispatchKeepsKeys(w, req, now, entries, f);
    DispatchAppendsTheHit(w, req, now, entries, f);
    var w', v := Dispatch(w, req, now, entries, f).0, Dispatch(w, req, now, entries, f).1;
    forall id | id in w.rows
      ensures w'.rows[id].id == id
      ensures w'.rows[id].hitCount == w.rows[id].hitCount + (if v == Blocked(id) then 1 else 0)
    {
      DispatchStrikesTheMatch(w, req, now, entries, f, id);
    }
    HitsFollow(w, w', v, now);
  }

  lemma HitsFollow(w: World, w': World, v: Verdict, now: int)
    requires Keyed(w'.rows) && w'.rows.Keys == w.rows.Keys && (v.Blocked? ==> v.reference in w.rows)
    requires if v.Blocked? then exists h :: w'.hits == w.hits + [h] && h.blockId == v.reference && h.at == now
             else w'.hits == w.hits
    requires forall id :: id in w.rows ==>
               w'.rows[id].hitCount == w.rows[id].hitCount + (if v == Blocked(id) then 1 else 0)
    ensures Records(w, w', v, now)
  {
    if v.Blocked? {
      var h :| w'.hits == w.hits + [h] && h.blockId == v.reference && h.at == now;
      forall id ensures HitsFor(w'.hits, id) == HitsFor(w.hits, id) + (if v.reference == id then 1 else 0) {
        HitsForAppend(w.hits, h, id);
      }
    }
  }
}
