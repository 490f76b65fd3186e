/**
  The middleware stack as `register_middleware` builds it: each layer registered wraps the ones
  before it, so the last one registered sees the request first.
 */
module Pipeline {
  import opened Wrappers
  import opened Json
  import Cidr
  import Blocklist
  import opened Idempotency

  datatype Layer =
    | SecurityHeaders
    | Cors
    | IdempotencyLayer
    | UsageQuota
    | StructuredLogging
    | IPBlocklist
    | RequestID

  const REGISTERED: seq<Layer> :=
    [SecurityHeaders, Cors, IdempotencyLayer, UsageQuota, StructuredLogging, IPBlocklist, RequestID]

  /** `add_middleware`: the new layer goes in front of the ones there. */
  function Register(order: seq<Layer>, layer: Layer): seq<Layer> {
    [layer] + order
  }

  /** The order of execution after the layers have been registered one after another. */
  function Outermost(registered: seq<Layer>): (order: seq<Layer>)
    ensures |order| == |registered|
    ensures forall i :: 0 <= i < |order| ==> order[i] == registered[|registered| - 1 - i]
  {
    if registered == [] then []
    else Register(Outermost(registered[..|registered| - 1]), registered[|registered| - 1])
  }

  /** One request: what the blocklist reads of it, and the three headers the other layers read. */
  datatype Call = Call(
    net: Blocklist.Request, requestId: Option<string>, tenantHeader: Option<string>,
    idempotencyKey: Option<string>)

  datatype Reply = Reply(response: Response, headers: map<string, string>)

  datatype Outcome = Returned(reply: Reply) | Raised

  /** `state` is whatever the handlers own; `handled` counts their invocations. */
  datatype App<H> = App(
    blocklist: Blocklist.World, quota: map<string, nat>, store: map<string, Entry>, handled: nat, state: H)

  /** The flag tells a handler's second invocation for one request, which may find the request's body read. */
  type Handler<!H> = (Call, bool, H) -> (Outcome, H)

  /** What the layers below the blocklist meet while they pass a request on. */
  datatype Pass = Pass(quotaFault: bool, checkFault: bool, storeFault: bool)

  /**
    What one request meets: clock, query answer, blocklist faults, the faults of a first and of a second
    pass through the layers below, a fresh id, and the answer of the CORS layer if this is a preflight.
   */
  datatype Env = Env(
    now: int, entries: seq<Blocklist.Row>, faults: Blocklist.Faults, first: Pass, second: Pass,
    freshId: string, preflight: Option<Reply>)

  function PassOf(env: Env, again: bool): Pass {
    if again then env.second else env.first
  }

  const SECURITY_HEADERS: map<string, string> := map[
    "X-Content-Type-Options" := "nosniff",
    "X-Frame-Options" := "DENY",
    "X-XSS-Protection" := "1; mode=block",
    "Referrer-Policy" := "strict-origin-when-cross-origin",
    "Permissions-Policy" := "camera=(), microphone=(), geolocation=()"
  ]

  const VERSION := "version"

  predicate Present(h: Option<string>) {
    h.Some? && h.value != ""
  }

  predicate IsPreflight(c: Call, env: Env) {
    c.net.verb == "OPTIONS" && env.preflight.Some?
  }

  function RequestIdOf(c: Call, env: Env): string {
    if Present(c.requestId) then c.requestId.value else env.freshId
  }

  function Identity(c: Call, env: Env): map<string, string> {
    map["X-Request-ID" := RequestIdOf(c, env), "X-Fuvay-Version" := VERSION]
  }

  function Counted(quota: map<string, nat>, c: Call, p: Pass): map<string, nat> {
    if Present(c.tenantHeader) && !p.quotaFault then
      quota[c.tenantHeader.value := UsageOf(quota, c.tenantHeader.value) + 1]
    else quota
  }

  function UsageOf(quota: map<string, nat>, tenant: string): nat {
    if tenant in quota then quota[tenant] else 0
  }

  function Forbidden(reference: nat): Reply {
    Reply(Response(403, JsonBody(Dict(map[
            "success" := Bool(false),
            "error" := Dict(map[
                "error_code" := Str("IP_BLOCKED"),
                "detail" := Str("This network is blocked by platform security policy."),
                "resolution" := Str("Contact platform support and provide the request ID.")]),
            "meta" := Dict(map["block_reference" := Num(reference as real)])]))), map[])
  }

  predicate Keyed(c: Call) {
    Applies(c.net.verb, c.idempotencyKey)
  }

  function KeyOf(c: Call): string
    requires Keyed(c)
  {
    ScopedKey(c.tenantHeader, c.net.path, c.idempotencyKey.value)
  }

  function AddHeaders(o: Outcome, extra: map<string, string>): Outcome {
    match o
    case Returned(r) => Returned(r.(headers := r.headers + extra))
    case Raised => Raised
  }

  /** What the idempotency layer makes of an answer: it stores it, marks it as stored, or loses its body. */
  function Settled<H>(c: Call, p: Pass, o: Outcome, a: App<H>): (Outcome, App<H>)
    requires Keyed(c)
  {
    match o
    case Raised => (o, a)
    case Returned(r) =>
      var extra := if IsStored(r.response, p.storeFault) then map["X-Idempotency-Key" := c.idempotencyKey.value] else map[];
      (Returned(Reply(Sent(r.response, p.storeFault), r.headers + extra)),
       a.(store := Saved(a.store, KeyOf(c), r.response, p.storeFault)))
  }

  /**
    The request passes the layers in order, then the handler; replies come back the same way. An
    exception that comes back to a guarded blocklist layer makes it pass the request on a second time.
   */
  function Through<H>(layers: seq<Layer>, h: Handler<H>, env: Env, again: bool, c: Call, a: App<H>): (Outcome, App<H>)
    decreases |layers|
  {
    if layers == [] then
      var (o, state') := h(c, again, a.state);
      (o, a.(handled := a.handled + 1, state := state'))
    else
      var rest := layers[1..];
      match layers[0]
      case RequestID =>
        var (o, a') := Through(rest, h, env, again, c, a);
        (AddHeaders(o, Identity(c, env)), a')
      case IPBlocklist =>
        var (w', v) := Blocklist.Dispatch(a.blocklist, c.net, env.now, env.entries, env.faults);
        (match v
         case Blocked(reference) => (Returned(Forbidden(reference)), a.(blocklist := w'))
         case Passed(guarded) =>
           var (o, a') := Through(rest, h, env, again, c, a.(blocklist := w'));
           if guarded && o.Raised? then Through(rest, h, env, true, c, a') else (o, a'))
      case StructuredLogging => Through(rest, h, env, again, c, a)
      case UsageQuota => Through(rest, h, env, again, c, a.(quota := Counted(a.quota, c, PassOf(env, again))))
      case IdempotencyLayer =>
        if !Keyed(c) then Through(rest, h, env, again, c, a)
        else
          (match LookUp(a.store, KeyOf(c), PassOf(env, again).checkFault)
           case Some(r) =>
             (Returned(Reply(r, map["X-Idempotency-Replayed" := "true", "X-Idempotency-Key" := c.idempotencyKey.value])), a)
           case None =>
             var (o, a') := Through(rest, h, env, again, c, a);
             Settled(c, PassOf(env, again), o, a'))
      case Cors =>
        if IsPreflight(c, env) then (Returned(env.preflight.value), a) else Through(rest, h, env, again, c, a)
      case SecurityHeaders =>
        var (o, a') := Through(rest, h, env, again, c, a);
        (AddHeaders(o, SECURITY_HEADERS), a')
  }

  /** The application: every request goes through the registered stack. */
  function Serve<H>(h: Handler<H>, env: Env, c: Call, a: App<H>): (Outcome, App<H>) {
    Through(Outermost(REGISTERED), h, env, false, c, a)
  }

  /** What the client gets: an exception that leaves the stack becomes a 500 made outside of it. */
  function Delivered(o: Outcome): Reply {
    match o
    case Returned(r) => r
    case Raised => Reply(Response(500, JsonBody(Dict(map["error_code" := Str("INTERNAL_ERROR")]))), map[])
  }

  // ---- One pass below the blocklist ------------------------------------------------------------------

  const BELOW: seq<Layer> := [StructuredLogging, UsageQuota, IdempotencyLayer, Cors, SecurityHeaders]

  ghost predicate IsReplay<H>(env: Env, again: bool, c: Call, a: App<H>) {
    Keyed(c) && LookUp(a.store, KeyOf(c), PassOf(env, again).checkFault).Some?
  }

  /** The pass gets to the handler. */
  ghost predicate Handles<H>(env: Env, again: bool, c: Call, a: App<H>) {
    !IsReplay(env, again, c, a) && !IsPreflight(c, env)
  }

  lemma RegisteredOrder()
    ensures Outermost(REGISTERED) == [RequestID, IPBlocklist] + BELOW
  {
  }

  lemma InnerLayers<H>(h: Handler<H>, env: Env, again: bool, c: Call, a: App<H>)
    ensures var (o, a') := Through([Cors, SecurityHeaders], h, env, again, c, a);
            if IsPreflight(c, env) then o == Returned(env.preflight.value) && a' == a
            else && a' == a.(handled := a.handled + 1, state := h(c, again, a.state).1)
                 && o == AddHeaders(h(c, again, a.state).0, SECURITY_HEADERS)
  {
    assert [Cors, SecurityHeaders][1..] == [SecurityHeaders] && [SecurityHeaders][1..] == [];
    var (o, state') := h(c, again, a.state);
    assert Through([], h, env, again, c, a) == (o, a.(handled := a.handled + 1, state := state'));
    assert Through([SecurityHeaders], h, env, again, c, a).0 == AddHeaders(o, SECURITY_HEADERS);
  }

  lemma CountingLayers<H>(h: Handler<H>, env: Env, again: bool, c: Call, a: App<H>)
    ensures Through(BELOW, h, env, again, c, a) ==
            Through([IdempotencyLayer, Cors, SecurityHeaders], h, env, again, c,
                    a.(quota := Counted(a.quota, c, PassOf(env, again))))
  {
    var counting := [UsageQuota, IdempotencyLayer, Cors, SecurityHeaders];
    assert BELOW[1..] == counting && counting[1..] == [IdempotencyLayer, Cors, SecurityHeaders];
    assert Through(BELOW, h, env, again, c, a) == Through(counting, h, env, again, c, a);
  }

  /** The state after a pass that got to the handler. */
  ghost predicate AfterHandler<H>(h: Handler<H>, env: Env, again: bool, c: Call, a: App<H>, o: Outcome, a': App<H>) {
    var (ho, state') := h(c, again, a.state);
    && a'.handled == a.handled + 1 && a'.state == state'
    && (o.Raised? <==> ho.Raised?)
    && (ho.Raised? ==> a'.store == a.store)
    && (ho.Returned? ==>
        && o.reply.response == (if Keyed(c) then Sent(ho.reply.response, PassOf(env, again).storeFault) else ho.reply.response)
        && a'.store == (if Keyed(c) then Saved(a.store, KeyOf(c), ho.reply.response, PassOf(env, again).storeFault) else a.store)
        && forall k :: k in SECURITY_HEADERS ==> k in o.reply.headers && o.reply.headers[k] == SECURITY_HEADERS[k])
  }

  lemma HandlingLayers<H>(h: Handler<H>, env: Env, again: bool, c: Call, a: App<H>)
    requires Handles(env, again, c, a)
    ensures var (o, a') := Through([IdempotencyLayer, Cors, SecurityHeaders], h, env, again, c, a);
            AfterHandler(h, env, again, c, a, o, a') && a'.quota == a.quota && a'.blocklist == a.blocklist
  {
    assert [IdempotencyLayer, Cors, SecurityHeaders][1..] == [Cors, SecurityHeaders];
    InnerLayers(h, env, again, c, a);
    SecurityHeaderKeys();
  }

  lemma SecurityHeaderKeys()
    ensures "X-Idempotency-Key" !in SECURITY_HEADERS && "X-Idempotency-Replayed" !in SECURITY_HEADERS
    ensures "X-Request-ID" !in SECURITY_HEADERS && "X-Fuvay-Version" !in SECURITY_HEADERS
  {
    assert "X-Idempotency-Key"[2] == 'I' && "X-Idempotency-Replayed"[2] == 'I';
    assert "X-Request-ID"[2] == 'R' && "X-Fuvay-Version"[3] == 'u';
    assert "X-Content-Type-Options"[2] == 'C' && "X-Frame-Options"[3] == 'r' && "X-XSS-Protection"[2] == 'X';
    assert "Referrer-Policy"[0] == 'R' && "Permissions-Policy"[0] == 'P';
  }

  lemma EndingLayers<H>(h: Handler<H>, env: Env, again: bool, c: Call, a: App<H>)
    requires !Handles(env, again, c, a)
    ensures var (o, a') := Through([IdempotencyLayer, Cors, SecurityHeaders], h, env, again, c, a);
            && o.Returned? && a' == a
            && (if IsReplay(env, again, c, a) then
                  && Some(o.reply.response) == LookUp(a.store, KeyOf(c), PassOf(env, again).checkFault)
                  && o.reply.headers == map["X-Idempotency-Replayed" := "true", "X-Idempotency-Key" := c.idempotencyKey.value]
                else o.reply == env.preflight.value)
  {
    assert [IdempotencyLayer, Cors, SecurityHeaders][1..] == [Cors, SecurityHeaders];
    InnerLayers(h, env, again, c, a);
  }

  ghost function Below<H>(h: Handler<H>, env: Env, again: bool, c: Call, a: App<H>): (Outcome, App<H>) {
    Through(BELOW, h, env, again, c, a)
  }

  /** A pass counts the request, leaves the blocklist alone, and raises exactly if it gets to a handler that does. */
  lemma PassCases<H>(h: Handler<H>, env: Env, again: bool, c: Call, a: App<H>)
    ensures var (o, a') := Below(h, env, again, c, a);
            && a'.quota == Counted(a.quota, c, PassOf(env, again)) && a'.blocklist == a.blocklist
            && (if Handles(env, again, c, a) then AfterHandler(h, env, again, c, a, o, a')
                else o.Returned? && a'.store == a.store && a'.handled == a.handled && a'.state == a.state)
            && (o.Raised? <==> Handles(env, again, c, a) && h(c, again, a.state).0.Raised?)
  {
    var counted := a.(quota := Counted(a.quota, c, PassOf(env, again)));
    CountingLayers(h, env, again, c, a);
    if Handles(env, again, c, a) {
      HandlingLayers(h, env, again, c, counted);
    } else {
      EndingLayers(h, env, again, c, counted);
    }
  }

  // ---- The whole stack ----------------------------------------------------------------------------------

  ghost function BlockVerdict<H>(env: Env, c: Call, a: App<H>): Blocklist.Verdict {
    Blocklist.Dispatch(a.blocklist, c.net, env.now, env.entries, env.faults).1
  }

  /** The state in which a request that is not refused leaves the blocklist layer. */
  ghost function Admitted<H>(env: Env, c: Call, a: App<H>): App<H> {
    a.(blocklist := Blocklist.Dispatch(a.blocklist, c.net, env.now, env.entries, env.faults).0)
  }

  /**
    The request is passed on a second time: index candidates were found, no row stopped it, the database
    answered, and the handler raised.
   */
  ghost predicate PassedOnTwice<H>(h: Handler<H>, env: Env, c: Call, a: App<H>) {
    && BlockVerdict(env, c, a) == Blocklist.Passed(true)
    && Handles(env, false, c, a) && h(c, false, a.state).0.Raised?
  }

  /** The whole stack, case by case. */
  lemma ServeCases<H>(h: Handler<H>, env: Env, c: Call, a: App<H>)
    ensures var (o, a') := Serve(h, env, c, a);
            var v := BlockVerdict(env, c, a);
            var one := Below(h, env, false, c, Admitted(env, c, a));
            if v.Blocked? then
              o == AddHeaders(Returned(Forbidden(v.reference)), Identity(c, env)) && a' == Admitted(env, c, a)
            else
              var last := if PassedOnTwice(h, env, c, a) then Below(h, env, true, c, one.1) else one;
              o == AddHeaders(last.0, Identity(c, env)) && a' == last.1
  {
    RegisteredOrder();
    var blocked := [IPBlocklist] + BELOW;
    assert Outermost(REGISTERED)[1..] == blocked && blocked[1..] == BELOW;
    PassCases(h, env, false, c, Admitted(env, c, a));
    assert (Serve(h, env, c, a).0, Serve(h, env, c, a).1) ==
           (AddHeaders(Through(blocked, h, env, false, c, a).0, Identity(c, env)), Through(blocked, h, env, false, c, a).1);
  }

  /** A blocked request touches no quota counter, no stored answer and no handler. */
  lemma BlockedTouchesNothingElse<H>(h: Handler<H>, env: Env, c: Call, a: App<H>)
    requires BlockVerdict(env, c, a).Blocked?
    ensures var (o, a') := Serve(h, env, c, a);
            && o.Returned? && o.reply.response.status == 403
            && a'.quota == a.quota && a'.store == a.store && a'.handled == a.handled && a'.state == a.state
  {
    ServeCases(h, env, c, a);
  }

  /** A replay is counted towards the quota like any request, and runs no handler. */
  lemma ReplayCountsOnceAndRunsNothing<H>(h: Handler<H>, env: Env, c: Call, a: App<H>)
    requires !BlockVerdict(env, c, a).Blocked? && IsReplay(env, false, c, a)
    ensures var (o, a') := Serve(h, env, c, a);
            && o.Returned? && Some(o.reply.response) == LookUp(a.store, KeyOf(c), env.first.checkFault)
            && a'.quota == Counted(a.quota, c, env.first)
            && a'.store == a.store && a'.handled == a.handled && a'.state == a.state
            && "X-Idempotency-Replayed" in o.reply.headers && o.reply.headers["X-Idempotency-Replayed"] == "true"
  {
    ServeCases(h, env, c, a);
    PassCases(h, env, false, c, Admitted(env, c, a));
    var counted := Admitted(env, c, a).(quota := Counted(a.quota, c, env.first));
    CountingLayers(h, env, false, c, Admitted(env, c, a));
    EndingLayers(h, env, false, c, counted);
  }

  /** The second pass gets to the handler too: no stored answer turned up this time. */
  ghost predicate HandledTwice<H>(h: Handler<H>, env: Env, c: Call, a: App<H>) {
    PassedOnTwice(h, env, c, a) && Handles(env, true, c, a)
  }

  /** A request that gets to the handler runs it once, if and only if it is not one of those that run it twice. */
  lemma HandledOnceIff<H>(h: Handler<H>, env: Env, c: Call, a: App<H>)
    requires !BlockVerdict(env, c, a).Blocked? && Handles(env, false, c, a)
    ensures var a' := Serve(h, env, c, a).1;
            && a.handled + 1 <= a'.handled <= a.handled + 2
            && (a'.handled == a.handled + 1 <==> !HandledTwice(h, env, c, a))
  {
    ServeCases(h, env, c, a);
    PassCases(h, env, false, c, Admitted(env, c, a));
    if PassedOnTwice(h, env, c, a) {
      PassCases(h, env, true, c, Below(h, env, false, c, Admitted(env, c, a)).1);
    }
  }

  /** And it is counted once, for a tenant whose counter works, if and only if it is not passed on twice. */
  lemma CountedOnceIff<H>(h: Handler<H>, env: Env, c: Call, a: App<H>)
    requires !BlockVerdict(env, c, a).Blocked? && Present(c.tenantHeader)
    requires !env.first.quotaFault && !env.second.quotaFault
    ensures var t := c.tenantHeader.value;
            var grown := UsageOf(Serve(h, env, c, a).1.quota, t) - UsageOf(a.quota, t);
            && 1 <= grown <= 2 && (grown == 1 <==> !PassedOnTwice(h, env, c, a))
  {
    ServeCases(h, env, c, a);
    PassCases(h, env, false, c, Admitted(env, c, a));
    if PassedOnTwice(h, env, c, a) {
      PassCases(h, env, true, c, Below(h, env, false, c, Admitted(env, c, a)).1);
    }
  }

  /**
    A request that index candidates bring to the database, where no row stops it - one whose scope does not
    reach it, say - and whose handler raises: it is counted twice and handled twice.
   */
  lemma RaisingRequestRunsTwice<H>(h: Handler<H>, env: Env, c: Call, a: App<H>, r: Blocklist.Row)
    requires a.blocklist == Blocklist.World(map[r.id := r], [], Blocklist.Index({}, {r.net})) && env.entries == [r]
    requires Blocklist.CheckedAddress(c.net).Some? && Cidr.Covers(r.net, Blocklist.CheckedAddress(c.net).value)
    requires Blocklist.Enforced(r, env.now) && !Blocklist.InScope(r, c.net) && env.faults == Blocklist.NO_FAULTS
    requires !Keyed(c) && !IsPreflight(c, env) && Present(c.tenantHeader)
    requires !env.first.quotaFault && !env.second.quotaFault
    requires h(c, false, a.state).0.Raised?
    ensures Blocklist.Answers(a.blocklist, c.net, env.entries)
    ensures var a' := Serve(h, env, c, a).1;
            && a'.handled == a.handled + 2
            && UsageOf(a'.quota, c.tenantHeader.value) == UsageOf(a.quota, c.tenantHeader.value) + 2
  {
    assert Blocklist.RequestCandidates(a.blocklist.index, c.net) == {r.net};
    assert env.entries[0] == r;
    HandledOnceIff(h, env, c, a);
    CountedOnceIff(h, env, c, a);
  }

  // ---- Answers -------------------------------------------------------------------------------------------

  /** The pass whose reply goes out. */
  ghost function LastPass<H>(h: Handler<H>, env: Env, c: Call, a: App<H>): bool {
    PassedOnTwice(h, env, c, a)
  }

  /** The handler's state when the last pass begins. */
  ghost function LastState<H>(h: Handler<H>, env: Env, c: Call, a: App<H>): H {
    if PassedOnTwice(h, env, c, a) then h(c, false, a.state).1 else a.state
  }

  /** The last pass got to the handler and the handler answered. */
  ghost predicate Answered<H>(h: Handler<H>, env: Env, c: Call, a: App<H>) {
    && !BlockVerdict(env, c, a).Blocked? && Handles(env, LastPass(h, env, c, a), c, a)
    && h(c, LastPass(h, env, c, a), LastState(h, env, c, a)).0.Returned?
  }

  ghost function HandlerReply<H>(h: Handler<H>, env: Env, c: Call, a: App<H>): Reply
    requires Answered(h, env, c, a)
  {
    h(c, LastPass(h, env, c, a), LastState(h, env, c, a)).0.reply
  }

  lemma LastPassCases<H>(h: Handler<H>, env: Env, c: Call, a: App<H>)
    requires !BlockVerdict(env, c, a).Blocked?
    ensures var again := LastPass(h, env, c, a);
            exists b: App<H> ::
              && b.store == a.store && b.state == LastState(h, env, c, a)
              && Serve(h, env, c, a) == (AddHeaders(Below(h, env, again, c, b).0, Identity(c, env)), Below(h, env, again, c, b).1)
  {
    ServeCases(h, env, c, a);
    var one := Below(h, env, false, c, Admitted(env, c, a));
    PassCases(h, env, false, c, Admitted(env, c, a));
    var b := if PassedOnTwice(h, env, c, a) then one.1 else Admitted(env, c, a);
    assert b.store == a.store && b.state == LastState(h, env, c, a);
    assert Serve(h, env, c, a) ==
           (AddHeaders(Below(h, env, LastPass(h, env, c, a), c, b).0, Identity(c, env)), Below(h, env, LastPass(h, env, c, a), c, b).1);
  }

  /**
    A handler's answer comes back as it was exactly when the request has no key, the answer is not a
    success, it was stored, or it had no body: otherwise it was read to be stored and goes out empty.
   */
  lemma AnswerComesBackIff<H>(h: Handler<H>, env: Env, c: Call, a: App<H>)
    requires Answered(h, env, c, a)
    ensures var (o, _) := Serve(h, env, c, a);
            var answer := HandlerReply(h, env, c, a).response;
            && o.Returned? && o.reply.response.status == answer.status
            && (o.reply.response == answer <==>
                || !Keyed(c) || !IsSuccess(answer.status) || answer.body == EMPTY_BODY
                || IsStored(answer, PassOf(env, LastPass(h, env, c, a)).storeFault))
            && (o.reply.response != answer ==> o.reply.response.body == EMPTY_BODY)
  {
    LastPassCases(h, env, c, a);
    var again := LastPass(h, env, c, a);
    var b: App<H> :|
      && b.store == a.store && b.state == LastState(h, env, c, a)
      && Serve(h, env, c, a) == (AddHeaders(Below(h, env, again, c, b).0, Identity(c, env)), Below(h, env, again, c, b).1);
    PassCases(h, env, again, c, b);
  }

  /** A keyed request whose handler answers 200 with something that is not JSON, such as an exported CSV. */
  lemma ExportIsLost<H>(h: Handler<H>, env: Env, c: Call, a: App<H>, csv: string)
    requires Answered(h, env, c, a) && Keyed(c) && csv != ""
    requires HandlerReply(h, env, c, a).response == Response(200, RawBody(csv))
    ensures Serve(h, env, c, a).0.Returned? && Serve(h, env, c, a).0.reply.response == Response(200, EMPTY_BODY)
  {
    AnswerComesBackIff(h, env, c, a);
  }

  /** A keyed request that succeeded while Redis refused to store the answer. */
  lemma UnstoredAnswerIsLost<H>(h: Handler<H>, env: Env, c: Call, a: App<H>, value: Value)
    requires Answered(h, env, c, a) && Keyed(c) && PassOf(env, LastPass(h, env, c, a)).storeFault
    requires HandlerReply(h, env, c, a).response == Response(201, JsonBody(value))
    ensures Serve(h, env, c, a).0.Returned? && Serve(h, env, c, a).0.reply.response == Response(201, EMPTY_BODY)
  {
    AnswerComesBackIff(h, env, c, a);
  }

  /** Whatever the stack returns has passed the layer that names the request. */
  lemma EveryOutcomeIsSigned<H>(h: Handler<H>, env: Env, c: Call, a: App<H>) returns (inner: Outcome)
    ensures Serve(h, env, c, a).0 == AddHeaders(inner, Identity(c, env))
  {
    ServeCases(h, env, c, a);
    var one := Below(h, env, false, c, Admitted(env, c, a));
    inner := if BlockVerdict(env, c, a).Blocked? then Returned(Forbidden(BlockVerdict(env, c, a).reference))
             else if PassedOnTwice(h, env, c, a) then Below(h, env, true, c, one.1).0
             else one.0;
  }

  /** The 500 made outside the stack. */
  predicate IsInternalError(r: Reply) {
    r.response.status == 500 && r.response.body == JsonBody(Dict(map["error_code" := Str("INTERNAL_ERROR")]))
  }

  lemma SignedIsIdentified(inner: Outcome, c: Call, env: Env)
    ensures var o := AddHeaders(inner, Identity(c, env));
            var headers := Delivered(o).headers;
            && ("X-Request-ID" in headers <==> o.Returned?) && ("X-Fuvay-Version" in headers <==> o.Returned?)
            && (o.Returned? ==>
                  && headers["X-Request-ID"] == (if c.requestId != None && c.requestId != Some("") then c.requestId.value
                                                 else env.freshId)
                  && headers["X-Fuvay-Version"] == VERSION)
            && (o.Raised? ==> IsInternalError(Delivered(o)))
  {
    assert "X-Request-ID"[2] == 'R' && "X-Fuvay-Version"[2] == 'F';
  }

  /**
    What the client gets names the request - by the id it sent, else by the fresh one - and the version exactly
    when the stack returned it: refusals and replays do, the 500 for an unhandled exception does not.
   */
  lemma IdentifiedIffReturned<H>(h: Handler<H>, env: Env, c: Call, a: App<H>)
    ensures var o := Serve(h, env, c, a).0;
            var headers := Delivered(o).headers;
            && ("X-Request-ID" in headers <==> o.Returned?) && ("X-Fuvay-Version" in headers <==> o.Returned?)
            && (o.Returned? ==>
                  && headers["X-Request-ID"] == (if c.requestId != None && c.requestId != Some("") then c.requestId.value
                                                 else env.freshId)
                  && headers["X-Fuvay-Version"] == VERSION)
            && (o.Raised? ==> IsInternalError(Delivered(o)))
  {
    var inner := EveryOutcomeIsSigned(h, env, c, a);
    SignedIsIdentified(inner, c, env);
  }

  /**
    The security headers are set by the innermost layer. All five are on every answer of a handler; none
    is on a refusal or a replay; a preflight has those the CORS layer gave it.
   */
  lemma SecurityHeadersOnlyOnHandledReplies<H>(h: Handler<H>, env: Env, c: Call, a: App<H>, k: string)
    requires k in SECURITY_HEADERS && Serve(h, env, c, a).0.Returned?
    ensures var headers := Serve(h, env, c, a).0.reply.headers;
            && (Answered(h, env, c, a) ==> k in headers && headers[k] == SECURITY_HEADERS[k])
            && (!Answered(h, env, c, a) ==>
                (k in headers <==>
                 && !BlockVerdict(env, c, a).Blocked? && !IsReplay(env, LastPass(h, env, c, a), c, a)
                 && IsPreflight(c, env) && k in env.preflight.value.headers))
  {
    SecurityHeaderKeys();
    if BlockVerdict(env, c, a).Blocked? {
      ServeCases(h, env, c, a);
    } else {
      LastPassCases(h, env, c, a);
      var again := LastPass(h, env, c, a);
      var b: App<H> :|
        && b.store == a.store && b.state == LastState(h, env, c, a)
        && Serve(h, env, c, a) == (AddHeaders(Below(h, env, again, c, b).0, Identity(c, env)), Below(h, env, again, c, b).1);
      PassHeaders(h, env, again, c, b, k);
    }
  }

  lemma PassHeaders<H>(h: Handler<H>, env: Env, again: bool, c: Call, b: App<H>, k: string)
    requires k in SECURITY_HEADERS && Below(h, env, again, c, b).0.Returned?
    ensures var headers := Below(h, env, again, c, b).0.reply.headers;
            if Handles(env, again, c, b) then
              h(c, again, b.state).0.Returned? && k in headers && headers[k] == SECURITY_HEADERS[k]
            else k in headers <==> !IsReplay(env, again, c, b) && k in env.preflight.value.headers
  {
    PassCases(h, env, again, c, b);
    if !Handles(env, again, c, b) {
      SecurityHeaderKeys();
      CountingLayers(h, env, again, c, b);
      EndingLayers(h, env, again, c, b.(quota := Counted(b.quota, c, PassOf(env, again))));
    }
  }

  // ---- Over any sequence of requests ---------------------------------------------------------------

  datatype Turn = Turn(env: Env, call: Call)

  function ServeAll<H>(h: Handler<H>, turns: seq<Turn>, a: App<H>): App<H> {
    if turns == [] then a
    else ServeAll(h, turns[1..], Serve(h, turns[0].env, turns[0].call, a).1)
  }

  /**
    What requests amount to: those counted for the tenant, those counted a second time, those that ended
    before the handler, and those handled a second time.
   */
  datatype Traffic = Traffic(counted: nat, recounted: nat, short: nat, rehandled: nat)

  predicate CountsFor(c: Call, p: Pass, tenant: string) {
    c.tenantHeader == Some(tenant) && !p.quotaFault
  }

  ghost function TurnTraffic<H>(h: Handler<H>, t: Turn, a: App<H>, tenant: string): Traffic {
    var blocked := BlockVerdict(t.env, t.call, a).Blocked?;
    Traffic(
      if !blocked && CountsFor(t.call, t.env.first, tenant) then 1 else 0,
      if PassedOnTwice(h, t.env, t.call, a) && CountsFor(t.call, t.env.second, tenant) then 1 else 0,
      if blocked || !Handles(t.env, false, t.call, a) then 1 else 0,
      if HandledTwice(h, t.env, t.call, a) then 1 else 0)
  }

  ghost function AllTraffic<H>(h: Handler<H>, turns: seq<Turn>, a: App<H>, tenant: string): Traffic {
    if turns == [] then Traffic(0, 0, 0, 0)
    else
      var one := TurnTraffic(h, turns[0], a, tenant);
      var others := AllTraffic(h, turns[1..], Serve(h, turns[0].env, turns[0].call, a).1, tenant);
      Traffic(one.counted + others.counted, one.recounted + others.recounted,
              one.short + others.short, one.rehandled + others.rehandled)
  }

  lemma TurnAccounts<H>(h: Handler<H>, t: Turn, a: App<H>, tenant: string)
    requires tenant != ""
    ensures var a' := Serve(h, t.env, t.call, a).1;
            var n := TurnTraffic(h, t, a, tenant);
            && UsageOf(a'.quota, tenant) == UsageOf(a.quota, tenant) + n.counted + n.recounted
            && a'.handled + n.short == a.handled + 1 + n.rehandled
  {
    ServeCases(h, t.env, t.call, a);
    if !BlockVerdict(t.env, t.call, a).Blocked? {
      var admitted := Admitted(t.env, t.call, a);
      PassCases(h, t.env, false, t.call, admitted);
      if PassedOnTwice(h, t.env, t.call, a) {
        PassCases(h, t.env, true, t.call, Below(h, t.env, false, t.call, admitted).1);
      }
    }
  }

  /**
    Conservation over any sequence of requests, handlers and faults: a tenant's counter grows by its
    requests that were not blocked plus those passed on twice, and the handlers have run once for every
    request that did not end early, plus once for every one handled twice.
   */
  lemma {:induction false} TrafficIsConserved<H>(h: Handler<H>, turns: seq<Turn>, a: App<H>, tenant: string)
    requires tenant != ""
    ensures var end := ServeAll(h, turns, a);
            var n := AllTraffic(h, turns, a, tenant);
            && UsageOf(end.quota, tenant) == UsageOf(a.quota, tenant) + n.counted + n.recounted
            && end.handled + n.short == a.handled + |turns| + n.rehandled
    decreases |turns|
  {
    if turns != [] {
      TurnAccounts(h, turns[0], a, tenant);
      TrafficIsConserved(h, turns[1..], Serve(h, turns[0].env, turns[0].call, a).1, tenant);
    }
  }

  /** Some request of the sequence is handled twice. */
  ghost predicate SomeHandledTwice<H>(h: Handler<H>, turns: seq<Turn>, a: App<H>) {
    turns != [] &&
    (HandledTwice(h, turns[0].env, turns[0].call, a)
     || SomeHandledTwice(h, turns[1..], Serve(h, turns[0].env, turns[0].call, a).1))
  }

  /** Every request ends early or is handled exactly once, if and only if none is handled twice. */
  lemma {:induction false} OnceEachIff<H>(h: Handler<H>, turns: seq<Turn>, a: App<H>, tenant: string)
    requires tenant != ""
    ensures ServeAll(h, turns, a).handled + AllTraffic(h, turns, a, tenant).short == a.handled + |turns|
            <==> !SomeHandledTwice(h, turns, a)
    decreases |turns|
  {
    TrafficIsConserved(h, turns, a, tenant);
    if turns != [] {
      var next := Serve(h, turns[0].env, turns[0].call, a).1;
      OnceEachIff(h, turns[1..], next, tenant);
      TrafficIsConserved(h, turns[1..], next, tenant);
    }
  }

  // ---- The place of the blocklist -----------------------------------------------------------------------

  /** The layers that pass every request on once. */
  const TRANSPARENT: set<Layer> := {RequestID, StructuredLogging, UsageQuota, SecurityHeaders}

  /**
    In any stack in which such layers lie outside the blocklist, a refusal reaches nothing below, and it is
    kept out of a tenant's working counter if and only if the quota layer is not among them.
   */
  lemma {:induction false} RefusalCountsIffQuotaOutside<H>(
    outer: seq<Layer>, rest: seq<Layer>, h: Handler<H>, env: Env, again: bool, c: Call, a: App<H>)
    requires BlockVerdict(env, c, a).Blocked? && forall l :: l in outer ==> l in TRANSPARENT
    requires Present(c.tenantHeader) && !PassOf(env, again).quotaFault
    ensures var (o, a') := Through(outer + [IPBlocklist] + rest, h, env, again, c, a);
            var t := c.tenantHeader.value;
            && o.Returned? && o.reply.response.status == 403
            && a'.store == a.store && a'.handled == a.handled && a'.state == a.state
            && UsageOf(a'.quota, t) >= UsageOf(a.quota, t)
            && (UsageOf(a'.quota, t) == UsageOf(a.quota, t) <==> UsageQuota !in outer)
    decreases |outer|
  {
    var layers := outer + [IPBlocklist] + rest;
    if outer == [] {
      assert layers[0] == IPBlocklist;
    } else {
      var below := outer[1..] + [IPBlocklist] + rest;
      assert layers == [outer[0]] + below;
      var a1 := if outer[0].UsageQuota? then a.(quota := Counted(a.quota, c, PassOf(env, again))) else a;
      assert outer[0] in outer;
      RefusalCountsIffQuotaOutside(outer[1..], rest, h, env, again, c, a1);
      TransparentStep(outer[0], below, h, env, again, c, a);
      assert UsageQuota in outer <==> outer[0] == UsageQuota || UsageQuota in outer[1..];
    }
  }

  lemma TransparentStep<H>(l: Layer, below: seq<Layer>, h: Handler<H>, env: Env, again: bool, c: Call, a: App<H>)
    requires l in TRANSPARENT
    ensures var a1 := if l.UsageQuota? then a.(quota := Counted(a.quota, c, PassOf(env, again))) else a;
            var (o, a') := Through([l] + below, h, env, again, c, a);
            var (o1, a1') := Through(below, h, env, again, c, a1);
            a' == a1' && (o.Returned? <==> o1.Returned?) && (o.Returned? ==> o.reply.response == o1.reply.response)
  {
    assert ([l] + below)[1..] == below;
  }
}
