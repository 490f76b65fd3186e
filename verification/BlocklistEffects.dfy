/** What one request decides and what it changes, field by field. */
module BlocklistEffects {
  import opened Wrappers
  import opened Cidr
  import opened Blocklist

  // ---- The verdict, over the fields ---------------------------------------------------------------------------

  lemma Pow2Add(a: nat, b: nat)
    ensures Pow2(a + b) == Pow2(a) * Pow2(b)
  {
    if a > 0 {
      Pow2Add(a - 1, b);
    }
  }

  lemma Pow2Square(n: nat, v: nat)
    requires Pow2(n) == v
    ensures Pow2(2 * n) == v * v
  {
    Pow2Add(n, n);
  }

  lemma {:induction false} Pow2Values()
    ensures Pow2(32) == 4294967296 && Pow2(128) == 340282366920938463463374607431768211456
  {
    assert Pow2(4) == 16;
    Pow2Square(4, 16);
    Pow2Square(8, 256);
    Pow2Square(16, 65536);
    Pow2Square(32, 4294967296);
    Pow2Square(64, 18446744073709551616);
  }

  /** The addresses of the two families. */
  predicate InRange(a: Address) {
    if a.family.V4? then a.value < 4294967296 else a.value < 340282366920938463463374607431768211456
  }

  /** A request is checked under an address exactly if its path is none of three and its client is that address. */
  lemma CheckedIff(req: Request, a: Address)
    ensures CheckedAddress(req) == Some(a) <==>
            req.path != "/health" && req.path != "/ready" && req.path != "/metrics"
            && req.client == Some(Host(a)) && InRange(a)
  {
    Pow2Values();
  }

  /** Which texts are networks: addresses in range, and prefix lengths up to 32 and 128. */
  lemma NetworkIff(t: Text)
    ensures ParseNetwork(t).Some? <==>
            !t.Malformed? && InRange(t.address) && (t.Prefixed? ==> t.length <= if t.address.family.V4? then 32 else 128)
  {
    Pow2Values();
  }

  /** The block is for this request, by scope, role and tenant. */
  predicate IsFor(scope: string, tenant: Option<string>, req: Request) {
    || scope == "all"
    || (scope == "tenant" && tenant.Some? && tenant.value != "" && req.tenant == tenant)
    || (req.role.Some? && RoleScope(req.role.value) == Some(scope))
  }

  predicate LastsUntil(expiresAt: Option<int>, t: int) {
    expiresAt == None || t < expiresAt.value
  }

  lemma StopsIff(r: Row, req: Request, a: Address, t: int)
    ensures Stops(r, req, a, t) <==>
            r.status == Active && LastsUntil(r.expiresAt, t) && IsFor(r.scope, r.tenant, req) && Covers(r.net, a)
  {
    ScopesReach(r.scope, req.role, req.tenant, r.tenant);
  }

  /**
    The verdict over a coherent index: refused exactly when some row has status active, an expiry that is absent
    or still to come, a scope that reaches the request, a network that covers its address, and is found.
   */
  lemma BlockedIffFields(w: World, req: Request, now: int, entries: seq<Row>)
    requires Answers(w, req, entries) && Coherent(w, now)
    ensures Dispatch(w, req, now, entries, NO_FAULTS).1.Blocked? <==>
            CheckedAddress(req).Some? &&
            exists id :: id in w.rows && w.rows[id].status == Active && LastsUntil(w.rows[id].expiresAt, now)
                         && IsFor(w.rows[id].scope, w.rows[id].tenant, req)
                         && Covers(w.rows[id].net, CheckedAddress(req).value) && IsFound(w, w.rows[id])
  {
    BlockedIffFound(w, req, now, entries);
    if CheckedAddress(req).Some? {
      forall id | id in w.rows
        ensures Stops(w.rows[id], req, CheckedAddress(req).value, now) <==>
                w.rows[id].status == Active && LastsUntil(w.rows[id].expiresAt, now)
                && IsFor(w.rows[id].scope, w.rows[id].tenant, req) && Covers(w.rows[id].net, CheckedAddress(req).value)
      {
        StopsIff(w.rows[id], req, CheckedAddress(req).value, now);
      }
    }
  }

  /** The reported block is global if any candidate that stops the request is, and the newest of its rank. */
  lemma ReportedRank(w: World, req: Request, now: int, entries: seq<Row>, id: nat)
    requires CheckedAddress(req).Some? && Answers(w, req, entries)
    requires Dispatch(w, req, now, entries, NO_FAULTS).1.Blocked?
    requires id in w.rows && w.rows[id].net in RequestCandidates(w.index, req)
    requires Stops(w.rows[id], req, CheckedAddress(req).value, now)
    ensures var ref := Dispatch(w, req, now, entries, NO_FAULTS).1.reference;
            && ref in w.rows && (w.rows[id].isGlobal ==> w.rows[ref].isGlobal)
            && (w.rows[id].isGlobal == w.rows[ref].isGlobal ==> w.rows[ref].createdAt >= w.rows[id].createdAt)
  {
    WinnerIsFirst(w, req, now, entries);
  }

  // ---- The rows afterwards -------------------------------------------------------------------------------------

  predicate HasLapsed(r: Row, now: int) {
    r.expiresAt.Some? && r.expiresAt.value <= now
  }

  /** The row loop met this row, past its expiry, before it stopped. */
  ghost predicate MetLapsed(req: Request, now: int, entries: seq<Row>, r: Row) {
    exists k :: 0 <= k < Winner(entries, req, now) && entries[k] == r && HasLapsed(r, now)
  }

  lemma MetLapsedIff(w: World, req: Request, now: int, entries: seq<Row>, id: nat)
    requires CheckedAddress(req).Some? && Answers(w, req, entries) && Keyed(w.rows) && id in w.rows
    ensures id in LapsedIds(entries, req, now) <==> MetLapsed(req, now, entries, w.rows[id])
  {
    var met := entries[..Winner(entries, req, now)];
    LapsedById(w, req, now, entries, id);
    if w.rows[id] in Lapsed(entries, req, now) {
      var k :| 0 <= k < |met| && met[k] == w.rows[id];
      assert entries[k] == w.rows[id];
    }
    if MetLapsed(req, now, entries, w.rows[id]) {
      var k :| 0 <= k < Winner(entries, req, now) && entries[k] == w.rows[id] && HasLapsed(w.rows[id], now);
      assert met[k] == w.rows[id];
    }
  }

  /**
    A row after a request, whole: the reported block has one hit more and is stamped with the time; the rows that
    the loop met past their expiry are expired and inactive, if the database took it; every other row is as it was.
   */
  lemma RowAfterRequest(w: World, req: Request, now: int, entries: seq<Row>, f: Faults, id: nat)
    requires Answers(w, req, entries) && Keyed(w.rows) && id in w.rows
    ensures var (w', v) := Dispatch(w, req, now, entries, f);
            && id in w'.rows
            && w'.rows[id] ==
               if v == Blocked(id) then w.rows[id].(hitCount := w.rows[id].hitCount + 1, lastHitAt := Some(now))
               else if CheckedAddress(req).Some? && !f.redisRead && !f.query && !f.commit && MetLapsed(req, now, entries, w.rows[id])
               then w.rows[id].(status := Expired, isActive := false)
               else w.rows[id]
  {
    if ReachesRows(req, f) {
      MetLapsedIff(w, req, now, entries, id);
      NoCandidatesNoRows(w, req, entries);
      var i := Winner(entries, req, now);
      if i < |entries| && entries[i].id == id {
        assert w.rows[id] == entries[i];
        EnforcedIsNotLapsed(w, req, now, entries, id);
      }
    }
  }

  lemma NoCandidatesNoRows(w: World, req: Request, entries: seq<Row>)
    requires CheckedAddress(req).Some? && Answers(w, req, entries)
    ensures RequestCandidates(w.index, req) == {} ==> |entries| == 0
  {
    assert |entries| > 0 ==> Selected(entries[0], RequestCandidates(w.index, req));
  }

  // ---- The index afterwards --------------------------------------------------------------------------------------

  /** A lapsed row that the loop met takes its text out of the set: none of its type is in force, and Redis obeys. */
  ghost predicate TakesOut(l: Row, req: Request, now: int, entries: seq<Row>, refused: set<Slot>, kind: Kind, net: Text) {
    && l.net == net && (l.kind == IpKind <==> kind == IpKind) && MetLapsed(req, now, entries, l)
    && (l.kind, net) !in refused
    && forall e :: e in entries && e.kind == l.kind && e.net == net ==> HasLapsed(e, now)
  }

  lemma StaleIsTakenOut(entries: seq<Row>, req: Request, now: int, refused: set<Slot>, kind: Kind, net: Text)
    requires forall e :: e in entries ==> e.status == Active
    requires Drops(StaleSlots(entries, req, now) - refused, kind, net)
    ensures exists l :: l in entries && TakesOut(l, req, now, entries, refused, kind, net)
  {
    var met := entries[..Winner(entries, req, now)];
    var stale := StaleSlots(entries, req, now) - refused;
    var s :| s in stale && s.1 == net && SameSet(s.0, kind);
    var l :| l in Lapsed(entries, req, now) && !SlotInUse(entries, (l.kind, l.net), now) && s == (l.kind, l.net);
    var k :| 0 <= k < |met| && met[k] == l;
    assert entries[k] == l;
    assert MetLapsed(req, now, entries, l);
    assert TakesOut(l, req, now, entries, refused, kind, net);
  }

  lemma TakenOutIsStale(entries: seq<Row>, req: Request, now: int, refused: set<Slot>, kind: Kind, net: Text, l: Row)
    requires l in entries && TakesOut(l, req, now, entries, refused, kind, net)
    ensures Drops(StaleSlots(entries, req, now) - refused, kind, net)
  {
    var met := entries[..Winner(entries, req, now)];
    var k :| 0 <= k < Winner(entries, req, now) && entries[k] == l && HasLapsed(l, now);
    assert met[k] == l;
    assert l in Lapsed(entries, req, now) && !SlotInUse(entries, (l.kind, l.net), now);
    assert (l.kind, l.net) in StaleSlots(entries, req, now) - refused;
  }

  lemma StaleIff(entries: seq<Row>, req: Request, now: int, refused: set<Slot>, kind: Kind, net: Text)
    requires forall e :: e in entries ==> e.status == Active
    ensures Drops(StaleSlots(entries, req, now) - refused, kind, net) <==>
            exists l :: l in entries && TakesOut(l, req, now, entries, refused, kind, net)
  {
    if Drops(StaleSlots(entries, req, now) - refused, kind, net) {
      StaleIsTakenOut(entries, req, now, refused, kind, net);
    }
    if l :| l in entries && TakesOut(l, req, now, entries, refused, kind, net) {
      TakenOutIsStale(entries, req, now, refused, kind, net, l);
    }
  }

  /** An index entry after a request: it is there exactly if it was and no such row took it out. */
  lemma EntryAfterRequest(w: World, req: Request, now: int, entries: seq<Row>, f: Faults, kind: Kind, net: Text)
    requires Answers(w, req, entries)
    ensures InIndex(Dispatch(w, req, now, entries, f).0.index, kind, net) <==>
            && InIndex(w.index, kind, net)
            && !(CheckedAddress(req).Some? && !f.redisRead && !f.query
                 && exists l :: l in entries && TakesOut(l, req, now, entries, f.evict, kind, net))
  {
    DispatchIndex(w, req, now, entries, f);
    if ReachesRows(req, f) {
      StaleIff(entries, req, now, f.evict, kind, net);
      var stale := StaleSlots(entries, req, now) - f.evict;
      assert InIndex(Evict(w.index, stale), kind, net) <==> InIndex(w.index, kind, net) && !Drops(stale, kind, net) by {
        SameDrops(stale, kind, net);
      }
    }
  }

  lemma SameDrops(slots: set<Slot>, kind: Kind, net: Text)
    ensures Drops(slots, kind, net) == Drops(slots, if kind.IpKind? then IpKind else CidrKind, net)
  {
  }

  // ---- Stamps ----------------------------------------------------------------------------------------------------

  /** The time of the last hit that names the block. */
  function LastHit(hits: seq<Hit>, id: nat): Option<int> {
    if hits == [] then None
    else if hits[|hits| - 1].blockId == id then Some(hits[|hits| - 1].at)
    else LastHit(hits[..|hits| - 1], id)
  }

  lemma LastHitAppend(hits: seq<Hit>, h: Hit, id: nat)
    ensures LastHit(hits + [h], id) == if h.blockId == id then Some(h.at) else LastHit(hits, id)
  {
    assert (hits + [h])[..|hits|] == hits;
  }

  lemma {:induction false} NoHitsNoStamp(hits: seq<Hit>, id: nat)
    requires HitsFor(hits, id) == 0
    ensures LastHit(hits, id) == None
  {
    if hits != [] {
      NoHitsNoStamp(hits[..|hits| - 1], id);
    }
  }

  /** Every row is stamped with the time of the last hit that names it. */
  ghost predicate Stamped(w: World) {
    forall id :: id in w.rows ==> w.rows[id].lastHitAt == LastHit(w.hits, id)
  }

  lemma DispatchKeepsStamps(w: World, req: Request, now: int, entries: seq<Row>, f: Faults)
    requires Answers(w, req, entries) && Keyed(w.rows) && Stamped(w)
    ensures Stamped(Dispatch(w, req, now, entries, f).0)
  {
    var (w', v) := Dispatch(w, req, now, entries, f);
    DispatchKeepsKeys(w, req, now, entries, f);
    DispatchAppendsTheHit(w, req, now, entries, f);
    forall id | id in w'.rows ensures w'.rows[id].lastHitAt == LastHit(w'.hits, id) {
      RowAfterRequest(w, req, now, entries, f, id);
      if v.Blocked? {
        LastHitAppend(w.hits, w'.hits[|w.hits|], id);
      }
    }
  }
}
