/**
  The calls that write the blocklist outside the request path: the admin workspace's create,
  rescope and revoke, the older block and unblock endpoints, and the start-up rebuild of the
  Redis sets. Each is one atomic step on the same state that requests use.
 */
module BlocklistAdmin {
  import opened Wrappers
  import Strings = Text
  import opened Cidr
  import opened Blocklist

  /** `redis`: the set update raises and is swallowed. `commit`: the request's session rolls back. */
  datatype AdminFaults = AdminFaults(redis: bool, commit: bool)

  /** What `create_ip_block` is asked for; `id` is the key the database assigns. */
  datatype Order = Order(
    id: nat, text: Text, reason: string, threat: string, scope: string, tenant: Option<string>,
    expiresAt: Option<int>, overrideSelfBlock: bool, actor: Option<Text>)

  const SCOPES: set<string> := {"all", "admin", "tenant", "customer", "staff"}
  const THREATS: set<string> := {"low", "medium", "high", "critical"}

  function AddToIndex(ix: Index, kind: Kind, net: Text): Index {
    if kind.IpKind? then ix.(ips := ix.ips + {net}) else ix.(cidrs := ix.cidrs + {net})
  }

  predicate WouldBlockActor(o: Order, net: Text) {
    !o.overrideSelfBlock && o.actor.Some? && ParseAddress(o.actor.value).Some?
    && Covers(net, ParseAddress(o.actor.value).value)
  }

  predicate HasActiveTwin(rows: map<nat, Row>, net: Text, tenant: Option<string>) {
    exists id :: id in rows && rows[id].net == net && rows[id].status == Active && rows[id].tenant == tenant
  }

  /** Everything `create_ip_block` asks for but the absence of an active row. */
  predicate IsSound(o: Order) {
    && ParseNetwork(o.text).Some? && |Strings.Strip(o.reason)| >= 5 && o.threat in THREATS && o.scope in SCOPES
    && (o.scope == "tenant" ==> o.tenant.Some?) && !WouldBlockActor(o, Canonical(ParseNetwork(o.text).value))
  }

  /** The checks of `create_ip_block`; a failed one raises before anything is written. */
  predicate Accepts(w: World, o: Order) {
    IsSound(o) && !HasActiveTwin(w.rows, Canonical(ParseNetwork(o.text).value), o.tenant)
  }

  function NewRow(o: Order, now: int): Row
    requires ParseNetwork(o.text).Some?
  {
    var n := ParseNetwork(o.text).value;
    Row(o.id, Canonical(n), if n.length == Width(n.family) then IpKind else CidrKind, o.scope, o.tenant,
        o.scope == "all", true, Active, o.expiresAt, now, 0, None)
  }

  /**
    The row is written with the session, the index entry at once - unless the flush raises, before both: the
    database admits one active row for a network and a tenant, or for a network and no tenant.
   */
  function Insert(w: World, r: Row, slot: Slot, f: AdminFaults): World {
    if HasActiveTwin(w.rows, r.net, r.tenant) then w
    else World(if f.commit then w.rows else w.rows[r.id := r], w.hits,
          if f.redis then w.index else AddToIndex(w.index, slot.0, slot.1))
  }

  /** `create_ip_block`. */
  function Create(w: World, o: Order, now: int, f: AdminFaults): World {
    if !Accepts(w, o) then w
    else var r := NewRow(o, now); Insert(w, r, (r.kind, r.net), f)
  }

  /**
    `revoke_ip_block`. The session does not autoflush, so the SELECT for other active rows still
    sees the row being revoked as active.
   */
  function Revoke(w: World, id: nat, now: int, f: AdminFaults): World {
    if id !in w.rows || w.rows[id].status != Active then w
    else
      var r := w.rows[id];
      var slot := (r.kind, r.net);
      World(if f.commit then w.rows else w.rows[id := r.(status := Revoked, isActive := false)], w.hits,
            if SlotEnforced(w.rows, slot, now) || f.redis then w.index else Evict(w.index, {slot}))
  }

  predicate SlotEnforced(rows: map<nat, Row>, slot: Slot, now: int) {
    exists id :: id in rows && rows[id].kind == slot.0 && rows[id].net == slot.1 && Enforced(rows[id], now)
  }

  /** `update_ip_block` as its endpoint exposes it: the scope changes, `is_global` does not. */
  function Rescope(w: World, id: nat, scope: string, f: AdminFaults): World {
    if id !in w.rows || scope !in SCOPES || f.commit then w
    else w.(rows := w.rows[id := w.rows[id].(scope := scope)])
  }

  /** `warm_ip_blocklist_cache`: the sets are deleted, then refilled from the rows read so far. */
  function Warm(w: World, added: set<nat>): World {
    w.(index := Index(set id | id in added && id in w.rows && w.rows[id].kind.IpKind? :: w.rows[id].net,
                      set id | id in added && id in w.rows && !w.rows[id].kind.IpKind? :: w.rows[id].net))
  }

  function EnforcedIds(rows: map<nat, Row>, now: int): set<nat> {
    set id | id in rows && Enforced(rows[id], now)
  }

  /** `block_ip`: text and type are stored as given, and the text always goes to the exact-IP set. */
  function LegacyBlock(w: World, r: Row, f: AdminFaults): World {
    Insert(w, r, (IpKind, r.net), f)
  }

  function HoldersOf(rows: map<nat, Row>, net: Text): set<nat> {
    set id | id in rows && rows[id].net == net && rows[id].isActive
  }

  /** `unblock_ip`: clears `is_active` of the only holder, leaves `status`, drops the exact-IP text. */
  function LegacyUnblock(w: World, net: Text, f: AdminFaults): World {
    var holders := HoldersOf(w.rows, net);
    if |holders| != 1 then w
    else
      var cleared := map id | id in w.rows ::
        if id in holders then w.rows[id].(isActive := false) else w.rows[id];
      World(if f.commit then w.rows else cleared, w.hits,
            if f.redis then w.index else Evict(w.index, {(IpKind, net)}))
  }

  // ---- When each call keeps the index coherent -------------------------------------------------

  /** A new row is coherent if it was not stored, is past expiry already, or its text is in its set. */
  predicate InsertIsSafe(w: World, r: Row, slot: Slot, now: int, f: AdminFaults) {
    HasActiveTwin(w.rows, r.net, r.tenant) || f.commit || !Enforced(r, now) || InIndex(w.index, r.kind, r.net) || (!f.redis && SameSet(slot.0, r.kind))
  }

  lemma InsertCoherence(w: World, r: Row, slot: Slot, now: int, f: AdminFaults)
    requires Coherent(w, now) && r.id !in w.rows && slot.1 == r.net
    ensures Coherent(Insert(w, r, slot, f), now) <==> InsertIsSafe(w, r, slot, now, f)
  {
    var w' := Insert(w, r, slot, f);
    if !f.commit && !HasActiveTwin(w.rows, r.net, r.tenant) {
      assert w'.rows[r.id] == r;
      assert forall id :: id in w.rows ==> w'.rows[id] == w.rows[id];
    }
  }

  /** Every accepted order, when nothing fails and it does not expire at once, leaves an enforced and indexed row. */
  lemma AcceptedIsEnforced(w: World, o: Order, now: int)
    requires Accepts(w, o) && o.id !in w.rows && (o.expiresAt.Some? ==> o.expiresAt.value > now)
    ensures var w' := Create(w, o, now, AdminFaults(false, false));
            var net := Canonical(ParseNetwork(o.text).value);
            && o.id in w'.rows && w'.rows[o.id].net == net && Enforced(w'.rows[o.id], now)
            && InIndex(w'.index, w'.rows[o.id].kind, net)
            && w'.rows[o.id].scope == o.scope && w'.rows[o.id].tenant == o.tenant
            && (w'.rows[o.id].isGlobal <==> o.scope == "all")
            && w'.rows[o.id].expiresAt == o.expiresAt && w'.rows[o.id].createdAt == now
            && forall id :: id in w.rows ==> id in w'.rows && w'.rows[id] == w.rows[id]
  {
  }

  /**
    A sound order takes effect exactly when no row with status active holds its network for its tenant - be
    that row enforced, or past its expiry and not yet met by a request. Revoked and expired rows do not matter.
   */
  lemma OrderTakesEffectIff(w: World, o: Order, now: int)
    requires IsSound(o) && o.id !in w.rows && (o.expiresAt.Some? ==> o.expiresAt.value > now)
    ensures var w' := Create(w, o, now, AdminFaults(false, false));
            (o.id in w'.rows && Enforced(w'.rows[o.id], now))
            <==> !HasActiveTwin(w.rows, Canonical(ParseNetwork(o.text).value), o.tenant)
  {
    if Accepts(w, o) {
      AcceptedIsEnforced(w, o, now);
    }
  }

  /** So a block that has lapsed unnoticed enforces nothing, and cannot be renewed either. */
  lemma LapsedBlockIsNotRenewed(w: World, o: Order, lapsed: nat, now: int)
    requires IsSound(o) && lapsed in w.rows && w.rows[lapsed].status == Active && !Unexpired(w.rows[lapsed], now)
    requires w.rows[lapsed].net == Canonical(ParseNetwork(o.text).value) && w.rows[lapsed].tenant == o.tenant
    ensures !Enforced(w.rows[lapsed], now) && Create(w, o, now, AdminFaults(false, false)) == w
  {
  }

  /** At most one row with status active holds a network for a tenant, or for none. */
  ghost predicate OneActiveEach(rows: map<nat, Row>) {
    forall i, k ::
      i in rows && k in rows && i != k && rows[i].status == Active && rows[k].status == Active ==>
        rows[i].net != rows[k].net || rows[i].tenant != rows[k].tenant
  }

  /** A request that meets the lapsed row makes room for its renewal. */
  lemma RequestMakesRoom(w: World, req: Request, now: int, entries: seq<Row>, o: Order, lapsed: nat)
    requires CheckedAddress(req).Some? && Answers(w, req, entries) && Keyed(w.rows) && OneActiveEach(w.rows)
    requires lapsed in w.rows && w.rows[lapsed] in Lapsed(entries, req, now) && IsSound(o)
    requires w.rows[lapsed].net == Canonical(ParseNetwork(o.text).value) && w.rows[lapsed].tenant == o.tenant
    ensures Accepts(Dispatch(w, req, now, entries, NO_FAULTS).0, o)
  {
    var w' := Dispatch(w, req, now, entries, NO_FAULTS).0;
    StatusChangesAreTheLapsed(w, req, now, entries, lapsed);
    forall id | id in w'.rows && w'.rows[id].net == w.rows[lapsed].net && w'.rows[id].tenant == o.tenant
      ensures w'.rows[id].status != Active
    {
      DispatchOnlyRetires(w, req, now, entries, NO_FAULTS, id);
    }
  }

  /** If the revocation removes the text, no enforced row of another type needs it in the same set. */
  predicate RevokeIsSafe(w: World, id: nat, now: int, f: AdminFaults) {
    (id in w.rows && w.rows[id].status == Active && !f.redis
     && !SlotEnforced(w.rows, (w.rows[id].kind, w.rows[id].net), now)) ==>
      !SetEnforced(w.rows, w.rows[id].kind, w.rows[id].net, now)
  }

  /** Some enforced row keeps the text in the set of the given type. */
  predicate SetEnforced(rows: map<nat, Row>, kind: Kind, net: Text, now: int) {
    exists id :: id in rows && SameSet(rows[id].kind, kind) && rows[id].net == net && Enforced(rows[id], now)
  }

  /** Exactly when revoking keeps the index coherent, whatever else fails. */
  lemma RevokeCoherence(w: World, id: nat, now: int, f: AdminFaults)
    requires Coherent(w, now)
    ensures Coherent(Revoke(w, id, now, f), now) <==> RevokeIsSafe(w, id, now, f)
    ensures id in w.rows && w.rows[id].status == Active && !f.commit ==>
              Revoke(w, id, now, f).rows == w.rows[id := w.rows[id].(status := Revoked, isActive := false)]
  {
    if id in w.rows && w.rows[id].status == Active {
      var r, w' := w.rows[id], Revoke(w, id, now, f);
      forall k | k in w.rows && k != id ensures k in w'.rows && w'.rows[k] == w.rows[k] {
      }
      if SlotEnforced(w.rows, (r.kind, r.net), now) || f.redis {
        assert w'.index == w.index;
      } else {
        assert !Enforced(r, now);
        assert forall kind, net :: InIndex(w'.index, kind, net) <==>
          InIndex(w.index, kind, net) && !(net == r.net && SameSet(r.kind, kind)) by {
          forall kind, net
            ensures InIndex(w'.index, kind, net) <==> InIndex(w.index, kind, net) && !(net == r.net && SameSet(r.kind, kind))
          {
            DropsOne((r.kind, r.net), kind, net);
          }
        }
        if SetEnforced(w.rows, r.kind, r.net, now) {
          var k :| k in w.rows && SameSet(w.rows[k].kind, r.kind) && w.rows[k].net == r.net && Enforced(w.rows[k], now);
          assert w'.rows[k] == w.rows[k];
        }
      }
    }
  }

  lemma DropsOne(slot: Slot, kind: Kind, net: Text)
    ensures Drops({slot}, kind, net) <==> slot.1 == net && SameSet(slot.0, kind)
  {
    assert slot in {slot};
  }

  lemma AgreeingRevokeIsSafe(w: World, id: nat, now: int, f: AdminFaults)
    requires TypesAgree(w)
    ensures RevokeIsSafe(w, id, now, f)
  {
  }

  /**
    The price: an unexpired row's text is never removed on revocation, even when no other row uses
    the network, so later requests from it keep reaching the database.
   */
  lemma RevokeLeavesIndexEntry(w: World, id: nat, now: int, f: AdminFaults)
    requires id in w.rows && Enforced(w.rows[id], now)
    ensures Revoke(w, id, now, f).index == w.index
  {
  }

  /** Revoking an active row removes its text exactly if Redis obeys and no row of its type, the row included, is enforced. */
  lemma RevokeRemovesEntryIff(w: World, id: nat, now: int, f: AdminFaults)
    requires id in w.rows && w.rows[id].status == Active && InIndex(w.index, w.rows[id].kind, w.rows[id].net)
    ensures !InIndex(Revoke(w, id, now, f).index, w.rows[id].kind, w.rows[id].net) <==>
            !f.redis && !SlotEnforced(w.rows, (w.rows[id].kind, w.rows[id].net), now)
  {
    DropsOne((w.rows[id].kind, w.rows[id].net), w.rows[id].kind, w.rows[id].net);
  }

  /** A complete rebuild leaves exactly the texts of the enforced rows. */
  lemma WarmIsExact(w: World, now: int)
    ensures var w' := Warm(w, EnforcedIds(w.rows, now));
            && Coherent(w', now)
            && (forall kind, net :: InIndex(w'.index, kind, net) <==> SetEnforced(w.rows, kind, net, now))
  {
    var w' := Warm(w, EnforcedIds(w.rows, now));
    forall kind, net ensures InIndex(w'.index, kind, net) <==> SetEnforced(w.rows, kind, net, now) {
      forall id | id in w.rows && SameSet(w.rows[id].kind, kind) && w.rows[id].net == net && Enforced(w.rows[id], now)
        ensures InIndex(w'.index, kind, net)
      {
        assert id in EnforcedIds(w.rows, now);
      }
    }
  }

  /** An interrupted rebuild is coherent exactly when the rows read so far hold every enforced slot. */
  predicate WarmIsSafe(w: World, added: set<nat>, now: int) {
    forall id :: id in w.rows && Enforced(w.rows[id], now) ==>
      exists k :: k in added && k in w.rows && SameSet(w.rows[k].kind, w.rows[id].kind) && w.rows[k].net == w.rows[id].net
  }

  lemma WarmCoherence(w: World, added: set<nat>, now: int)
    ensures Coherent(Warm(w, added), now) <==> WarmIsSafe(w, added, now)
  {
  }

  predicate UnblockIsSafe(w: World, net: Text, now: int, f: AdminFaults) {
    |HoldersOf(w.rows, net)| != 1 || f.redis || !SlotEnforced(w.rows, (IpKind, net), now)
  }

  lemma UnblockCoherence(w: World, net: Text, now: int, f: AdminFaults)
    requires Coherent(w, now)
    ensures Coherent(LegacyUnblock(w, net, f), now) <==> UnblockIsSafe(w, net, now, f)
  {
    var w' := LegacyUnblock(w, net, f);
    if |HoldersOf(w.rows, net)| == 1 {
      assert forall id :: id in w.rows ==>
        id in w'.rows && w'.rows[id].net == w.rows[id].net && w'.rows[id].kind == w.rows[id].kind
        && (Enforced(w'.rows[id], now) <==> Enforced(w.rows[id], now));
      if UnblockIsSafe(w, net, now, f) {
        forall id | id in w'.rows && Enforced(w'.rows[id], now)
          ensures InIndex(w'.index, w'.rows[id].kind, w'.rows[id].net)
        {
          DropsOne((IpKind, net), w'.rows[id].kind, w'.rows[id].net);
        }
      } else {
        DropsOne((IpKind, net), IpKind, net);
        var id :| id in w.rows && w.rows[id].kind == IpKind && w.rows[id].net == net && Enforced(w.rows[id], now);
        assert Enforced(w'.rows[id], now) && !InIndex(w'.index, IpKind, net);
      }
    }
  }

  /** An unblocked row still counts as active, so the next rebuild of the sets enforces it again. */
  lemma WarmUndoesUnblock(w: World, net: Text, id: nat, now: int, f: AdminFaults)
    requires id in w.rows && w.rows[id].net == net && Enforced(w.rows[id], now)
    ensures var u := LegacyUnblock(w, net, f);
            InIndex(Warm(u, EnforcedIds(u.rows, now)).index, w.rows[id].kind, net)
  {
    var u := LegacyUnblock(w, net, f);
    assert Enforced(u.rows[id], now);
    WarmIsExact(u, now);
  }
}
