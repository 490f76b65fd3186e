/** The blocklist as the program keeps it: fields that the request path and the admin calls update. */
module BlocklistStore {
  import opened Wrappers
  import opened Cidr
  import opened Blocklist
  import opened BlocklistAdmin

  class Store {
    var rows: map<nat, Row>
    var hits: seq<Hit>
    var ips: set<Text>
    var cidrs: set<Text>

    ghost function Contents(): World
      reads this
    {
      World(rows, hits, Index(ips, cidrs))
    }

    /** The two Redis reads, building the candidate list. */
    method FindCandidates(ip: Text, a: Address) returns (candidates: seq<Text>)
      ensures forall t :: t in candidates <==> t in Candidates(Index(ips, cidrs), ip, a)
    {
      candidates := if ip in ips then [ip] else [];
      var pending := cidrs;
      while pending != {}
        invariant pending <= cidrs
        invariant forall t :: t in candidates <==> t in Candidates(Index(ips, cidrs - pending), ip, a)
      {
        var raw :| raw in pending;
        pending := pending - {raw};
        if Covers(raw, a) {
          candidates := candidates + [raw];
        }
      }
      assert cidrs - pending == cidrs;
    }

    /** The row loop: expires what has lapsed and stops at the first row that matches. */
    method Scan(req: Request, now: int, entries: seq<Row>)
      returns (session: map<nat, Row>, expired: set<Slot>, matched: Option<Row>)
      requires forall k :: 0 <= k < |entries| ==> entries[k].id in rows && rows[entries[k].id] == entries[k]
      ensures session == Settle(rows, LapsedIds(entries, req, now), None, now)
      ensures expired == Slots(Lapsed(entries, req, now))
      ensures var i := Winner(entries, req, now);
              matched == if i < |entries| then Some(entries[i]) else None
    {
      session, expired, matched := rows, {}, None;
      var i := 0;
      while i < |entries|
        invariant 0 <= i <= |entries| && matched.None?
        invariant forall k :: 0 <= k < i ==> !IsMatch(entries[k], req, now)
        invariant expired == Slots(LapsedAmong(entries[..i], now))
        invariant session == Settle(rows, Ids(LapsedAmong(entries[..i], now)), None, now)
      {
        var entry := entries[i];
        MeetOneMore(rows, entries, i, now);
        if !Unexpired(entry, now) {
          session := session[entry.id := session[entry.id].(status := Expired, isActive := false)];
          expired := expired + {(entry.kind, entry.net)};
          i := i + 1;
          continue;
        }
        if InScope(entry, req) {
          matched := Some(entry);
          break;
        }
        i := i + 1;
      }
      FirstMatchIsWinner(entries, req, now, i);
    }

    /** Some fetched row keeps the slot after the row loop. */
    static predicate Holds(entries: seq<Row>, session: map<nat, Row>, slot: Slot, now: int) {
      exists e :: e in entries && e.kind == slot.0 && e.net == slot.1
                  && e.id in session && session[e.id].status == Active && Unexpired(e, now)
    }

    /** The removal loop: a slot goes unless a fetched row still holds it or Redis refuses. */
    method RemoveStale(expired: set<Slot>, session: map<nat, Row>, now: int, entries: seq<Row>, refused: set<Slot>)
      modifies this`ips, this`cidrs
      ensures Index(ips, cidrs) ==
              Evict(Index(old(ips), old(cidrs)), (set s | s in expired && !Holds(entries, session, s, now)) - refused)
    {
      var pending := expired;
      while pending != {}
        invariant pending <= expired
        invariant Index(ips, cidrs) ==
          Evict(Index(old(ips), old(cidrs)),
                (set s | s in expired - pending && !Holds(entries, session, s, now)) - refused)
      {
        var slot :| slot in pending;
        pending := pending - {slot};
        if Holds(entries, session, slot, now) {
          continue;
        }
        if slot !in refused {
          if slot.0 == IpKind {
            ips := ips - {slot.1};
          } else {
            cidrs := cidrs - {slot.1};
          }
        }
      }
    }

    /** The matched row is counted and stamped. */
    static method Stamp(session: map<nat, Row>, id: nat, now: int) returns (s: map<nat, Row>)
      requires id in session
      ensures s == session[id := Strike(session[id], now)]
    {
      var matched := session[id];
      s := session[id := matched.(hitCount := matched.hitCount + 1, lastHitAt := Some(now))];
    }

    /** `IPBlocklistMiddleware.dispatch`; `entries` is what the ordered SELECT returns. */
    method Dispatch(req: Request, now: int, entries: seq<Row>, f: Faults) returns (v: Verdict)
      requires Answers(Contents(), req, entries)
      modifies this
      ensures (Contents(), v) == Blocklist.Dispatch(old(Contents()), req, now, entries, f)
    {
      if req.path in EXEMPT_PATHS || req.client.None? || ParseAddress(req.client.value).None? || f.redisRead {
        return Passed(false);
      }
      var candidates := FindCandidates(req.client.value, ParseAddress(req.client.value).value);
      if candidates == [] || f.query {
        assert candidates != [] ==> candidates[0] in RequestCandidates(Contents().index, req);
        return Passed(false);
      }
      assert candidates[0] in RequestCandidates(Contents().index, req);
      var session, expired, matched := Scan(req, now, entries);
      ghost var w := Contents();
      SameSlots(w, req, now, entries, session, expired);
      RemoveStale(expired, session, now, entries, f.evict);
      v := Passed(false);
      if matched.Some? {
        var id := matched.value.id;
        MatchIsNotLapsed(w, req, now, entries);
        session := Stamp(session, id, now);
      }
      if f.commit {
        return;
      }
      rows := session;
      if matched.Some? {
        hits := hits + [HitOf(matched.value, req, now)];
        v := Blocked(matched.value.id);
      } else {
        v := Passed(true);  // the rest of the stack runs inside the try block
      }
    }

    /** `warm_ip_blocklist_cache` when nothing fails. */
    method WarmCache(now: int)
      modifies this`ips, this`cidrs
      ensures Contents() == Warm(old(Contents()), EnforcedIds(rows, now))
    {
      ips, cidrs := {}, {};
      var pending := rows.Keys;
      while pending != {}
        invariant pending <= rows.Keys
        invariant ips == set id | id in rows.Keys - pending && Enforced(rows[id], now) && rows[id].kind.IpKind?
                           :: rows[id].net
        invariant cidrs == set id | id in rows.Keys - pending && Enforced(rows[id], now) && !rows[id].kind.IpKind?
                             :: rows[id].net
      {
        var id :| id in pending;
        pending := pending - {id};
        if Enforced(rows[id], now) {
          if rows[id].kind == IpKind {
            ips := ips + {rows[id].net};
          } else {
            cidrs := cidrs + {rows[id].net};
          }
        }
      }
    }
  }

  /** One more row met by the loop: it joins the lapsed ones or changes nothing. */
  lemma MeetOneMore(rows: map<nat, Row>, entries: seq<Row>, i: nat, now: int)
    requires i < |entries| && entries[i].id in rows
    ensures var e := entries[i];
            var before, after := LapsedAmong(entries[..i], now), LapsedAmong(entries[..i + 1], now);
            var session := Settle(rows, Ids(before), None, now);
            if Unexpired(e, now) then after == before
            else && Slots(after) == Slots(before) + {(e.kind, e.net)}
                 && Settle(rows, Ids(after), None, now) == session[e.id := Expire(session[e.id])]
  {
    var e := entries[i];
    var before, after := LapsedAmong(entries[..i], now), LapsedAmong(entries[..i + 1], now);
    assert entries[..i + 1] == entries[..i] + [e];
    if !Unexpired(e, now) {
      assert after == before + {e};
      assert Ids(after) == Ids(before) + {e.id};
    }
  }

  lemma {:induction false} FirstMatchIsWinner(entries: seq<Row>, req: Request, now: int, i: nat)
    requires i <= |entries| && (i < |entries| ==> IsMatch(entries[i], req, now))
    requires forall k :: 0 <= k < i ==> !IsMatch(entries[k], req, now)
    ensures i == Winner(entries, req, now)
  {
    var w := Winner(entries, req, now);
    assert w < |entries| ==> IsMatch(entries[w], req, now);
  }

  /** The slots the removal loop drops are the stale ones: an expired row never holds its slot. */
  lemma SameSlots(w: World, req: Request, now: int, entries: seq<Row>, session: map<nat, Row>, expired: set<Slot>)
    requires forall k :: 0 <= k < |entries| ==> entries[k].id in w.rows && w.rows[entries[k].id] == entries[k]
    requires forall k :: 0 <= k < |entries| ==> entries[k].status == Active
    requires session == Settle(w.rows, LapsedIds(entries, req, now), None, now)
    requires expired == Slots(Lapsed(entries, req, now))
    ensures (set s | s in expired && !Store.Holds(entries, session, s, now)) == StaleSlots(entries, req, now)
  {
    forall s ensures Store.Holds(entries, session, s, now) <==> SlotInUse(entries, s, now) {
      forall e | e in entries && Unexpired(e, now) ensures session[e.id].status == Active {
        forall l | l in Lapsed(entries, req, now) ensures l.id != e.id {
          assert l == w.rows[l.id] && e == w.rows[e.id];
        }
      }
    }
  }

  lemma MatchIsNotLapsed(w: World, req: Request, now: int, entries: seq<Row>)
    requires forall k :: 0 <= k < |entries| ==> entries[k].id in w.rows && w.rows[entries[k].id] == entries[k]
    requires Winner(entries, req, now) < |entries|
    ensures var id := entries[Winner(entries, req, now)].id;
            var lapsed := LapsedIds(entries, req, now);
            && id !in lapsed
            && Settle(w.rows, lapsed, Some(id), now)
               == Settle(w.rows, lapsed, None, now)[id := Strike(w.rows[id], now)]
  {
    var won := entries[Winner(entries, req, now)];
    forall l | l in Lapsed(entries, req, now) ensures l.id != won.id {
      var k :| 0 <= k < |entries| && entries[k] == l;
    }
  }
}
