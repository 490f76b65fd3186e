/** What the calls that write the blocklist leave behind, field by field, and what that means for later requests. */
module BlocklistCalls {
  import opened Wrappers
  import Strings = Text
  import opened Cidr
  import opened Blocklist
  import opened BlocklistEffects
  import opened BlocklistAdmin

  // ---- Creating a block ------------------------------------------------------------------------------------------

  /** The checks of an order, over its fields. */
  lemma AcceptsIff(w: World, o: Order)
    ensures Accepts(w, o) <==>
            && ParseNetwork(o.text).Some? && |Strings.Strip(o.reason)| >= 5
            && (o.threat == "low" || o.threat == "medium" || o.threat == "high" || o.threat == "critical")
            && (o.scope == "all" || o.scope == "admin" || o.scope == "tenant" || o.scope == "customer" || o.scope == "staff")
            && (o.scope == "tenant" ==> o.tenant.Some?)
            && (forall id :: id in w.rows && w.rows[id].status == Active && w.rows[id].tenant == o.tenant ==>
                  w.rows[id].net != Canonical(ParseNetwork(o.text).value))
            && (!o.overrideSelfBlock ==> forall a :: o.actor == Some(Host(a)) && InRange(a) ==> !Covers(o.text, a))
  {
    if ParseNetwork(o.text).Some? {
      BlocksActorIff(o);
    }
  }

  /** The order would block whoever gives it, and does not say that this is meant. */
  lemma BlocksActorIff(o: Order)
    requires ParseNetwork(o.text).Some?
    ensures WouldBlockActor(o, Canonical(ParseNetwork(o.text).value)) <==>
            !o.overrideSelfBlock && exists a :: o.actor == Some(Host(a)) && InRange(a) && Covers(o.text, a)
  {
    Pow2Values();
    forall a ensures Covers(Canonical(ParseNetwork(o.text).value), a) <==> Covers(o.text, a) {
      CanonicalKeepsCoverage(o.text, a);
    }
  }

  /** An accepted order changes nothing but the one new row and the one index entry. */
  lemma CreateChangesOnly(w: World, o: Order, now: int, f: AdminFaults)
    requires Accepts(w, o)
    ensures var w' := Create(w, o, now, f);
            var net := Canonical(ParseNetwork(o.text).value);
            && w'.hits == w.hits
            && w'.rows.Keys == w.rows.Keys + (if f.commit then {} else {o.id})
            && (forall id :: id in w.rows && id != o.id ==> w'.rows[id] == w.rows[id])
            && (forall kind, t :: InIndex(w'.index, kind, t) <==>
                  InIndex(w.index, kind, t) || (!f.redis && t == net && (kind == IpKind <==> net.Host?)))
  {
    CanonicalKeepsCoverage(o.text, Address(V4, 0));
  }

  /** An order that is not accepted changes nothing. */
  lemma RefusedChangesNothing(w: World, o: Order, now: int, f: AdminFaults)
    requires !Accepts(w, o)
    ensures Create(w, o, now, f) == w
  {
  }

  /**
    The new row stops a request at a time exactly when the ordered network covers its address, the ordered scope
    and tenant are for it, and the ordered expiry is still to come.
   */
  lemma NewBlockStopsIff(w: World, o: Order, now: int, redis: bool, req: Request, a: Address, t: int)
    requires Accepts(w, o)
    ensures var w' := Create(w, o, now, AdminFaults(redis, false));
            && o.id in w'.rows
            && (Stops(w'.rows[o.id], req, a, t) <==>
                Covers(o.text, a) && IsFor(o.scope, o.tenant, req) && LastsUntil(o.expiresAt, t))
  {
    CanonicalKeepsCoverage(o.text, a);
    StopsIff(NewRow(o, now), req, a, t);
  }

  /**
    Its rank: it comes before a scoped row exactly when it is ordered for all or that row is not newer, and before
    a global row exactly when both. It has the time of the order, has not been hit, and is active.
   */
  lemma NewBlockRank(w: World, o: Order, now: int, redis: bool, y: Row)
    requires Accepts(w, o)
    ensures var w' := Create(w, o, now, AdminFaults(redis, false));
            && o.id in w'.rows
            && (var r := w'.rows[o.id];
                && (!y.isGlobal ==> (Precedes(r, y) <==> o.scope == "all" || y.createdAt <= now))
                && (y.isGlobal ==> (Precedes(r, y) <==> o.scope == "all" && y.createdAt <= now))
                && (r.isGlobal <==> o.scope == "all")
                && r.id == o.id && r.createdAt == now && r.hitCount == 0 && r.lastHitAt == None
                && r.isActive && r.status == Active && r.tenant == o.tenant && r.scope == o.scope)
  {
  }

  // ---- Revoking ----------------------------------------------------------------------------------------------------

  /** A committed revocation of an active row changes its status and activity, and no other field or row. */
  lemma RevokeChangesOnly(w: World, id: nat, now: int, f: AdminFaults)
    requires id in w.rows && w.rows[id].status == Active
    ensures var w' := Revoke(w, id, now, f);
            && w'.hits == w.hits && w'.rows.Keys == w.rows.Keys
            && (forall k :: k in w.rows && (k != id || f.commit) ==> w'.rows[k] == w.rows[k])
            && (!f.commit ==> w'.rows[id] == w.rows[id].(status := Revoked, isActive := false))
  {
  }

  /** A revocation of anything else changes nothing. */
  lemma RevokeElsewhereChangesNothing(w: World, id: nat, now: int, f: AdminFaults)
    requires id in w.rows ==> w.rows[id].status != Active
    ensures Revoke(w, id, now, f) == w
  {
  }

  /** A revoked row is enforced at no time. */
  lemma RevokedIsNeverEnforced(w: World, id: nat, now: int, redis: bool, t: int)
    requires id in w.rows && w.rows[id].status == Active
    ensures var w' := Revoke(w, id, now, AdminFaults(redis, false)); id in w'.rows && !Enforced(w'.rows[id], t)
  {
  }

  /** A later request is refused exactly when some other row, whose text is among the candidates, stops it. */
  lemma RevokedStopsNobody(w: World, id: nat, now: int, redis: bool, req: Request, t: int, entries: seq<Row>)
    requires id in w.rows && w.rows[id].status == Active
    requires Answers(Revoke(w, id, now, AdminFaults(redis, false)), req, entries)
    ensures var w' := Revoke(w, id, now, AdminFaults(redis, false));
            Dispatch(w', req, t, entries, NO_FAULTS).1.Blocked? <==>
            CheckedAddress(req).Some? &&
            exists k :: k in w.rows && k != id && Stops(w.rows[k], req, CheckedAddress(req).value, t)
                        && w.rows[k].net in RequestCandidates(w'.index, req)
  {
    var w' := Revoke(w, id, now, AdminFaults(redis, false));
    BlockedIffCandidateRow(w', req, t, entries);
    assert forall k :: k in w.rows && k != id ==> k in w'.rows && w'.rows[k] == w.rows[k];
  }

  // ---- Rescoping ---------------------------------------------------------------------------------------------------

  predicate IsScope(scope: string) {
    scope == "all" || scope == "admin" || scope == "tenant" || scope == "customer" || scope == "staff"
  }

  /** A committed rescoping to a known scope changes the scope of the one row and nothing else; any other nothing. */
  lemma RescopeChangesOnly(w: World, id: nat, scope: string, f: AdminFaults)
    ensures var w' := Rescope(w, id, scope, f);
            && w'.hits == w.hits && w'.index == w.index && w'.rows.Keys == w.rows.Keys
            && forall k :: k in w.rows ==>
                 w'.rows[k] == if k == id && IsScope(scope) && !f.commit then w.rows[k].(scope := scope) else w.rows[k]
  {
  }

  /** It reaches whom the new scope reaches. */
  lemma RescopedStopsIff(w: World, id: nat, scope: string, redis: bool, req: Request, a: Address, t: int)
    requires id in w.rows && IsScope(scope)
    ensures var w' := Rescope(w, id, scope, AdminFaults(redis, false));
            Stops(w'.rows[id], req, a, t) <==>
            && w.rows[id].status == Active && LastsUntil(w.rows[id].expiresAt, t) && Covers(w.rows[id].net, a)
            && IsFor(scope, w.rows[id].tenant, req)
  {
    var w' := Rescope(w, id, scope, AdminFaults(redis, false));
    StopsIff(w'.rows[id], req, a, t);
  }

  // ---- The older calls -----------------------------------------------------------------------------------------------

  /** The older block call stores its row as given, unless an active twin is there, and fills the exact-IP set. */
  lemma LegacyBlockChangesOnly(w: World, r: Row, f: AdminFaults)
    ensures var w' := LegacyBlock(w, r, f);
            var refused := exists id :: id in w.rows && w.rows[id].status == Active && w.rows[id].net == r.net && w.rows[id].tenant == r.tenant;
            && w'.hits == w.hits && w'.index.cidrs == w.index.cidrs
            && w'.rows == (if refused || f.commit then w.rows else w.rows[r.id := r])
            && w'.index.ips == (if refused || f.redis then w.index.ips else w.index.ips + {r.net})
  {
  }

  /** The only active holder of a text. */
  ghost predicate IsOnlyHolder(w: World, net: Text, id: nat) {
    && id in w.rows && w.rows[id].net == net && w.rows[id].isActive
    && forall k :: k in w.rows && w.rows[k].net == net && w.rows[k].isActive ==> k == id
  }

  lemma OnlyHolderIff(w: World, net: Text)
    ensures |HoldersOf(w.rows, net)| == 1 <==> exists id: nat :: IsOnlyHolder(w, net, id)
  {
    var holders := HoldersOf(w.rows, net);
    if |holders| == 1 {
      var id :| id in holders;
      assert |holders - {id}| == 0;
      assert holders == {id} + (holders - {id}) == {id};
      assert forall k :: k in w.rows && w.rows[k].net == net && w.rows[k].isActive ==> k in holders;
      assert IsOnlyHolder(w, net, id);
    }
    if id: nat :| IsOnlyHolder(w, net, id) {
      assert holders == {id};
    }
  }

  /** The older unblock call, for a text with one active holder: that row is inactive, with its status as it was. */
  lemma LegacyUnblockChangesOnly(w: World, net: Text, id: nat, f: AdminFaults)
    requires IsOnlyHolder(w, net, id)
    ensures var w' := LegacyUnblock(w, net, f);
            && w'.hits == w.hits && w'.rows.Keys == w.rows.Keys && w'.index.cidrs == w.index.cidrs
            && (forall k :: k in w.rows ==>
                  w'.rows[k] == if k == id && !f.commit then w.rows[k].(isActive := false) else w.rows[k])
            && w'.index.ips == (if f.redis then w.index.ips else w.index.ips - {net})
  {
    OnlyHolderIff(w, net);
    assert HoldersOf(w.rows, net) == {id};
    assert forall kind, t :: Drops({(IpKind, net)}, kind, t) <==> t == net && kind.IpKind? by {
      forall kind, t ensures Drops({(IpKind, net)}, kind, t) <==> t == net && kind.IpKind? {
        DropsOne((IpKind, net), kind, t);
      }
    }
  }

  /** And for any other text: nothing. */
  lemma LegacyUnblockElsewhere(w: World, net: Text, f: AdminFaults)
    requires !exists id: nat :: IsOnlyHolder(w, net, id)
    ensures LegacyUnblock(w, net, f) == w
  {
    OnlyHolderIff(w, net);
  }
}
