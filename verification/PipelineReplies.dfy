/** What replies say, and whose answers they are, over sequences of requests. */
module PipelineReplies {
  import opened Wrappers
  import opened Json
  import opened Idempotency
  import opened Pipeline

  // ---- What a refusal, an answer and a stored answer look like -------------------------------------------------------

  /** A refusal says so, and names the block. */
  lemma RefusalNamesTheBlock<H>(h: Handler<H>, env: Env, c: Call, a: App<H>)
    requires BlockVerdict(env, c, a).Blocked?
    ensures var o := Serve(h, env, c, a).0;
            && o.Returned? && o.reply.response.status == 403 && o.reply.response.body.JsonBody?
            && (var body := o.reply.response.body.value;
                && body.Dict? && "error" in body.entries && "meta" in body.entries && "success" in body.entries
                && body.entries["success"] == Bool(false)
                && body.entries["error"].Dict? && "error_code" in body.entries["error"].entries
                && body.entries["error"].entries["error_code"] == Str("IP_BLOCKED")
                && body.entries["meta"] == Dict(map["block_reference" := Num(BlockVerdict(env, c, a).reference as real)]))
  {
    ServeCases(h, env, c, a);
  }

  /** The five headers on a handler's answer, by name and value. */
  lemma AnswersAreProtected<H>(h: Handler<H>, env: Env, c: Call, a: App<H>)
    requires Answered(h, env, c, a)
    ensures var o := Serve(h, env, c, a).0;
            o.Returned? &&
            (var headers := o.reply.headers;
             && Says(headers, "X-Content-Type-Options", "nosniff") && Says(headers, "X-Frame-Options", "DENY")
             && Says(headers, "X-XSS-Protection", "1; mode=block")
             && Says(headers, "Referrer-Policy", "strict-origin-when-cross-origin")
             && Says(headers, "Permissions-Policy", "camera=(), microphone=(), geolocation=()"))
  {
    AnswerComesBackIff(h, env, c, a);
    ProtectedBy(h, env, c, a, "X-Content-Type-Options", "nosniff");
    ProtectedBy(h, env, c, a, "X-Frame-Options", "DENY");
    ProtectedBy(h, env, c, a, "X-XSS-Protection", "1; mode=block");
    ProtectedBy(h, env, c, a, "Referrer-Policy", "strict-origin-when-cross-origin");
    ProtectedBy(h, env, c, a, "Permissions-Policy", "camera=(), microphone=(), geolocation=()");
  }

  predicate Says(headers: map<string, string>, name: string, value: string) {
    name in headers && headers[name] == value
  }

  lemma ProtectedBy<H>(h: Handler<H>, env: Env, c: Call, a: App<H>, name: string, value: string)
    requires Answered(h, env, c, a) && Serve(h, env, c, a).0.Returned? && Says(SECURITY_HEADERS, name, value)
    ensures Says(Serve(h, env, c, a).0.reply.headers, name, value)
  {
    SecurityHeadersOnlyOnHandledReplies(h, env, c, a, name);
  }

  lemma StoredPassIsLabelled<H>(h: Handler<H>, env: Env, again: bool, c: Call, a: App<H>)
    requires Handles(env, again, c, a) && Keyed(c) && h(c, again, a.state).0.Returned?
    requires IsStored(h(c, again, a.state).0.reply.response, PassOf(env, again).storeFault)
    ensures var o := Through([IdempotencyLayer, Cors, SecurityHeaders], h, env, again, c, a).0;
            o.Returned? && Says(o.reply.headers, "X-Idempotency-Key", c.idempotencyKey.value)
  {
    assert [IdempotencyLayer, Cors, SecurityHeaders][1..] == [Cors, SecurityHeaders];
    InnerLayers(h, env, again, c, a);
  }

  lemma StoredBelowIsLabelled<H>(h: Handler<H>, env: Env, again: bool, c: Call, a: App<H>)
    requires Handles(env, again, c, a) && Keyed(c) && h(c, again, a.state).0.Returned?
    requires IsStored(h(c, again, a.state).0.reply.response, PassOf(env, again).storeFault)
    ensures var o := Below(h, env, again, c, a).0;
            o.Returned? && Says(o.reply.headers, "X-Idempotency-Key", c.idempotencyKey.value)
  {
    CountingLayers(h, env, again, c, a);
    StoredPassIsLabelled(h, env, again, c, a.(quota := Counted(a.quota, c, PassOf(env, again))));
  }

  lemma IdentityKeepsLabel(o: Outcome, c: Call, env: Env, value: string)
    requires o.Returned? && Says(o.reply.headers, "X-Idempotency-Key", value)
    ensures var sent := AddHeaders(o, Identity(c, env));
            sent.Returned? && Says(sent.reply.headers, "X-Idempotency-Key", value)
  {
    assert "X-Idempotency-Key"[2] == 'I' && "X-Request-ID"[2] == 'R' && "X-Fuvay-Version"[2] == 'F';
  }

  /** An answer that was stored says under which key. */
  lemma StoredAnswerIsLabelled<H>(h: Handler<H>, env: Env, c: Call, a: App<H>)
    requires Answered(h, env, c, a) && Keyed(c)
    requires IsStored(HandlerReply(h, env, c, a).response, PassOf(env, LastPass(h, env, c, a)).storeFault)
    ensures var o := Serve(h, env, c, a).0;
            o.Returned? && Says(o.reply.headers, "X-Idempotency-Key", c.idempotencyKey.value)
  {
    LastPassCases(h, env, c, a);
    var again := LastPass(h, env, c, a);
    var b: App<H> :|
      && b.store == a.store && b.state == LastState(h, env, c, a)
      && Serve(h, env, c, a) == (AddHeaders(Below(h, env, again, c, b).0, Identity(c, env)), Below(h, env, again, c, b).1);
    StoredBelowIsLabelled(h, env, again, c, b);
    IdentityKeepsLabel(Below(h, env, again, c, b).0, c, env, c.idempotencyKey.value);
  }

  // ---- The store after a request ---------------------------------------------------------------------------------------

  /** A request changes the store only by the answer of its handler, under its own key. */
  lemma StoreAfterServe<H>(h: Handler<H>, env: Env, c: Call, a: App<H>)
    ensures Serve(h, env, c, a).1.store ==
            if Answered(h, env, c, a) && Keyed(c)
            then Saved(a.store, KeyOf(c), HandlerReply(h, env, c, a).response, PassOf(env, LastPass(h, env, c, a)).storeFault)
            else a.store
  {
    if BlockVerdict(env, c, a).Blocked? {
      ServeCases(h, env, c, a);
    } else {
      LastPassCases(h, env, c, a);
      var again := LastPass(h, env, c, a);
      var b: App<H> :|
        && b.store == a.store && b.state == LastState(h, env, c, a)
        && Serve(h, env, c, a) == (AddHeaders(Below(h, env, again, c, b).0, Identity(c, env)), Below(h, env, again, c, b).1);
      PassCases(h, env, again, c, b);
    }
  }

  predicate ColonFree(c: Call) {
    ':' !in TenantOf(c.tenantHeader) && ':' !in c.net.path
  }

  /** Serving one endpoint leaves what is stored for another as it was. */
  lemma OtherEndpointsAreUntouched<H>(h: Handler<H>, env: Env, c: Call, a: App<H>, other: Call, fault: bool)
    requires Keyed(other) && ColonFree(c) && ColonFree(other) && c.net.path != other.net.path
    ensures LookUp(Serve(h, env, c, a).1.store, KeyOf(other), fault) == LookUp(a.store, KeyOf(other), fault)
  {
    StoreAfterServe(h, env, c, a);
    if Keyed(c) {
      ColonFreeKeysAreInjective(c.tenantHeader, c.net.path, c.idempotencyKey.value,
                                other.tenantHeader, other.net.path, other.idempotencyKey.value);
    }
  }

  // ---- Whose answer a replay is ----------------------------------------------------------------------------------------

  lemma {:induction false} ServeAllSnoc<H>(h: Handler<H>, turns: seq<Turn>, t: Turn, a: App<H>)
    ensures ServeAll(h, turns + [t], a) == Serve(h, t.env, t.call, ServeAll(h, turns, a)).1
    decreases |turns|
  {
    if turns == [] {
      assert turns + [t] == [t];
      assert [t][1..] == [];
      var next := Serve(h, t.env, t.call, a).1;
      assert ServeAll(h, [], next) == next;
    } else {
      assert (turns + [t])[1..] == turns[1..] + [t];
      ServeAllSnoc(h, turns[1..], t, Serve(h, turns[0].env, turns[0].call, a).1);
    }
  }

  /** Turn `i` ran its handler, under this key, and the entry is the handler's answer. */
  ghost predicate GaveAnswer<H>(h: Handler<H>, turns: seq<Turn>, a: App<H>, i: nat, key: string, e: Entry) {
    && i < |turns| && Keyed(turns[i].call) && KeyOf(turns[i].call) == key
    && Answered(h, turns[i].env, turns[i].call, ServeAll(h, turns[..i], a))
    && HandlerReply(h, turns[i].env, turns[i].call, ServeAll(h, turns[..i], a)).response == Response(e.status, JsonBody(e.body))
  }

  ghost predicate IsSomeonesAnswer<H>(h: Handler<H>, turns: seq<Turn>, a: App<H>, key: string, e: Entry) {
    exists i: nat :: GaveAnswer(h, turns, a, i, key, e)
  }

  lemma {:induction false} AnswerStays<H>(h: Handler<H>, turns: seq<Turn>, t: Turn, a: App<H>, key: string, e: Entry)
    requires IsSomeonesAnswer(h, turns, a, key, e)
    ensures IsSomeonesAnswer(h, turns + [t], a, key, e)
  {
    var i: nat :| GaveAnswer(h, turns, a, i, key, e);
    assert (turns + [t])[..i] == turns[..i] && (turns + [t])[i] == turns[i];
    assert GaveAnswer(h, turns + [t], a, i, key, e);
  }

  /** From an empty store, every entry is the answer that the handler gave to a request with that key. */
  lemma {:induction false} EntriesAreAnswers<H>(h: Handler<H>, turns: seq<Turn>, a: App<H>, key: string)
    requires a.store == map[] && key in ServeAll(h, turns, a).store
    ensures IsSomeonesAnswer(h, turns, a, key, ServeAll(h, turns, a).store[key])
    decreases |turns|
  {
    if turns != [] {
      var n := |turns| - 1;
      var init, t := turns[..n], turns[n];
      assert turns == init + [t];
      var before := ServeAll(h, init, a);
      ServeAllSnoc(h, init, t, a);
      StoreAfterServe(h, t.env, t.call, before);
      var after := ServeAll(h, turns, a);
      if key in before.store && after.store[key] == before.store[key] {
        EntriesAreAnswers(h, init, a, key);
        AnswerStays(h, init, t, a, key, before.store[key]);
      } else {
        assert turns[..n] == init;
        assert GaveAnswer(h, turns, a, n, key, after.store[key]);
      }
    }
  }

  /** The two calls are of one tenant, a request without a header counting as the platform's. */
  predicate SameTenant(c: Call, d: Call) {
    || c.tenantHeader == d.tenantHeader
    || (c.tenantHeader == None && d.tenantHeader == Some("platform"))
    || (d.tenantHeader == None && c.tenantHeader == Some("platform"))
  }

  /**
    Over any sequence of requests from an empty store, without colons in tenants and paths: a replay is the marked
    form of the answer that the handler gave to an earlier request of the same tenant, path and key.
   */
  lemma {:induction false} ReplayIsOwnAnswer<H>(h: Handler<H>, turns: seq<Turn>, a: App<H>, env: Env, c: Call) returns (i: nat)
    requires a.store == map[] && ColonFree(c) && forall t :: t in turns ==> ColonFree(t.call)
    requires var now := ServeAll(h, turns, a); !BlockVerdict(env, c, now).Blocked? && IsReplay(env, false, c, now)
    ensures i < |turns| && turns[i].call.net.path == c.net.path
    ensures turns[i].call.idempotencyKey == c.idempotencyKey && SameTenant(turns[i].call, c)
    ensures var earlier := ServeAll(h, turns[..i], a);
            && Answered(h, turns[i].env, turns[i].call, earlier)
            && Serve(h, env, c, ServeAll(h, turns, a)).0.Returned?
            && IsReplayOf(Serve(h, env, c, ServeAll(h, turns, a)).0.reply.response,
                          HandlerReply(h, turns[i].env, turns[i].call, earlier).response)
  {
    var now := ServeAll(h, turns, a);
    var key := KeyOf(c);
    ReplayCountsOnceAndRunsNothing(h, env, c, now);
    EntriesAreAnswers(h, turns, a, key);
    i :| GaveAnswer(h, turns, a, i, key, now.store[key]);
    var d := turns[i].call;
    assert turns[i] in turns;
    ColonFreeKeysAreInjective(d.tenantHeader, d.net.path, d.idempotencyKey.value,
                              c.tenantHeader, c.net.path, c.idempotencyKey.value);
  }
}
