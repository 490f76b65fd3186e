/**
  The idempotency layer: look the scoped key up, run the handler on a miss, store a successful
  answer. Requests interleave between these steps; they share only the store.

  A request here is one call of the layer's `dispatch`. One request of a client can be two of them:
  the blocklist layer passes it on again when the layers below it raise (see Pipeline.dfy).
 */
module Idempotency {
  import opened Wrappers
  import opened Json

  /** A response body: JSON text, or bytes that `json.loads` rejects, among them none at all. */
  datatype Body = JsonBody(value: Value) | RawBody(bytes: string)

  const EMPTY_BODY := RawBody("")

  datatype Response = Response(status: int, body: Body)

  datatype Entry = Entry(status: int, body: Value)

  const METHODS: set<string> := {"POST", "PUT", "PATCH", "DELETE"}

  /** The layer only acts on write requests that carry a non-empty key. */
  predicate Applies(verb: string, key: Option<string>) {
    key.Some? && key.value != "" && verb in METHODS
  }

  predicate IsSuccess(status: int) {
    200 <= status < 300
  }

  // ---- The scoped key ---------------------------------------------------------------------------

  function Endpoint(tenant: string, path: string): string {
    tenant + ":" + path + ":"
  }

  /** `f"{tenant_id}:{path}:{key}"`, the tenant defaulting to "platform". */
  function ScopedKey(tenant: Option<string>, path: string, key: string): string {
    Endpoint(if tenant.Some? then tenant.value else "platform", path) + key
  }

  /** The tenant a request is taken to be of: that of its header, or the platform. */
  function TenantOf(header: Option<string>): string {
    match header
    case Some(t) => t
    case None => "platform"
  }

  /** What a scoped key begins with. */
  function Prefix(header: Option<string>, path: string): string {
    TenantOf(header) + ":" + path + ":"
  }

  lemma ScopedKeyIs(header: Option<string>, path: string, key: string)
    ensures ScopedKey(header, path, key) == Prefix(header, path) + key
  {
  }

  /**
    Two endpoints, with tenant headers or without, can share a scoped key, made of keys the layer acts on,
    exactly when one's prefix begins the other's.
   */
  lemma KeysCollideIffPrefixesNest(t1: Option<string>, p1: string, t2: Option<string>, p2: string)
    ensures (exists k1, k2 :: k1 != "" && k2 != "" && ScopedKey(t1, p1, k1) == ScopedKey(t2, p2, k2)) <==>
            Prefix(t1, p1) <= Prefix(t2, p2) || Prefix(t2, p2) <= Prefix(t1, p1)
  {
    var e1, e2 := Prefix(t1, p1), Prefix(t2, p2);
    if e1 <= e2 {
      assert ScopedKey(t1, p1, e2[|e1|..] + "x") == e2 + "x" == ScopedKey(t2, p2, "x");
    } else if e2 <= e1 {
      assert ScopedKey(t2, p2, e1[|e2|..] + "x") == e1 + "x" == ScopedKey(t1, p1, "x");
    }
    forall k1, k2 | ScopedKey(t1, p1, k1) == ScopedKey(t2, p2, k2)
      ensures e1 <= e2 || e2 <= e1
    {
      var s := e1 + k1;
      assert e1 == s[..|e1|] && e2 == s[..|e2|];
    }
  }

  /** The first colon of `t + ":" + rest` is the one after a colon-free `t`. */
  lemma SplitAtColon(t1: string, r1: string, t2: string, r2: string)
    requires ':' !in t1 && ':' !in t2 && t1 + ":" + r1 == t2 + ":" + r2
    ensures t1 == t2 && r1 == r2
  {
    var s := t1 + ":" + r1;
    assert s[|t1|] == ':' && s[|t2|] == ':';
    assert forall i :: 0 <= i < |t1| ==> s[i] == t1[i];
    assert forall i :: 0 <= i < |t2| ==> s[i] == t2[i];
    assert |t1| == |t2|;
    assert t1 == s[..|t1|] && t2 == s[..|t2|];
    assert r1 == s[|t1| + 1..] && r2 == s[|t2| + 1..];
  }

  /**
    Without colons in tenants and paths, scoped keys are equal exactly when tenant, path and key are. A request
    without a tenant header shares its keys with the tenant "platform", and with no other.
   */
  lemma ColonFreeKeysAreInjective(
    t1: Option<string>, p1: string, k1: string, t2: Option<string>, p2: string, k2: string)
    requires ':' !in TenantOf(t1) && ':' !in p1 && ':' !in TenantOf(t2) && ':' !in p2
    ensures ScopedKey(t1, p1, k1) == ScopedKey(t2, p2, k2) <==>
            && p1 == p2 && k1 == k2
            && (t1 == t2 || (t1 == None && t2 == Some("platform")) || (t2 == None && t1 == Some("platform")))
  {
    if ScopedKey(t1, p1, k1) == ScopedKey(t2, p2, k2) {
      var n1, n2 := TenantOf(t1), TenantOf(t2);
      assert n1 + ":" + (p1 + ":" + k1) == ScopedKey(t1, p1, k1);
      assert n2 + ":" + (p2 + ":" + k2) == ScopedKey(t2, p2, k2);
      SplitAtColon(n1, p1 + ":" + k1, n2, p2 + ":" + k2);
      SplitAtColon(p1, k1, p2, k2);
    }
  }

  /** The layer acts on exactly four methods, and on requests with a key that is not empty. */
  lemma AppliesIff(verb: string, key: Option<string>)
    ensures Applies(verb, key) <==>
            && (verb == "POST" || verb == "PUT" || verb == "PATCH" || verb == "DELETE")
            && key != None && key != Some("")
  {
  }

  // ---- Replay -----------------------------------------------------------------------------------

  /** `{**body.get("meta", {})}` needs the stored `meta` to be absent or a mapping. */
  predicate Replayable(body: Value) {
    body.Dict? && "meta" in body.entries ==> body.entries["meta"].Dict?
  }

  function Marked(body: Value): Value
    requires Replayable(body)
  {
    if body.Dict? then
      var meta := if "meta" in body.entries then body.entries["meta"].entries else map[];
      Dict(body.entries["meta" := Dict(meta["idempotent" := Bool(true)])])
    else body
  }

  function ReplayOf(e: Entry): Response
    requires Replayable(e.body)
  {
    Response(e.status, JsonBody(Marked(e.body)))
  }

  /** A replay differs from the stored answer in `meta.idempotent` and in nothing else. */
  lemma ReplayOnlyMarks(e: Entry)
    requires Replayable(e.body)
    ensures var r := ReplayOf(e);
            && r.status == e.status
            && (!e.body.Dict? ==> r.body == JsonBody(e.body))
            && (e.body.Dict? ==>
                && r.body.value.Dict?
                && r.body.value.entries.Keys == e.body.entries.Keys + {"meta"}
                && (forall k :: k in e.body.entries && k != "meta" ==> r.body.value.entries[k] == e.body.entries[k])
                && r.body.value.entries["meta"].Dict?
                && (var meta := r.body.value.entries["meta"].entries;
                    var was := if "meta" in e.body.entries then e.body.entries["meta"].entries else map[];
                    && meta.Keys == was.Keys + {"idempotent"} && meta["idempotent"] == Bool(true)
                    && forall k :: k in was && k != "idempotent" ==> meta[k] == was[k]))
  {
  }

  /** What a look-up decides: answer from the store, or let the request through to the handler. */
  function LookUp(store: map<string, Entry>, key: string, fault: bool): Option<Response> {
    if !fault && key in store && Replayable(store[key].body) then Some(ReplayOf(store[key])) else None
  }

  /** The answer is successful, decodes, and Redis takes it. */
  predicate IsStored(r: Response, fault: bool) {
    IsSuccess(r.status) && r.body.JsonBody? && !fault
  }

  /**
    What goes out after a handler run. Storing reads the body of a successful answer to its end first;
    if decoding or storing then raises, the answer is returned as it is, with nothing left to send.
   */
  function Sent(r: Response, fault: bool): Response {
    if IsSuccess(r.status) && !IsStored(r, fault) then r.(body := EMPTY_BODY) else r
  }

  /** What a finished handler run leaves in the store. */
  function Saved(store: map<string, Entry>, key: string, r: Response, fault: bool): map<string, Entry> {
    if IsStored(r, fault) then store[key := Entry(r.status, r.body.value)] else store
  }

  /** The store as the process holds it. */
  class Cache {
    var store: map<string, Entry>

    method Check(key: string, fault: bool) returns (replay: Option<Response>)
      ensures replay == LookUp(store, key, fault)
    {
      replay := None;
      if fault {
        return;  // the look-up raised; the request goes on to the handler
      }
      if key in store {
        var cached := store[key];
        var body := cached.body;
        if body.Dict? {
          if "meta" in body.entries && !body.entries["meta"].Dict? {
            return;  // unpacking a non-mapping raises
          }
          var meta := if "meta" in body.entries then body.entries["meta"].entries else map[];
          meta := meta["idempotent" := Bool(true)];
          body := Dict(body.entries["meta" := Dict(meta)]);
        }
        replay := Some(Response(cached.status, JsonBody(body)));
      }
    }

    /**
      After the handler: a stored answer is what the next look-up of the key replays, if it can be marked;
      other keys are untouched; and the answer goes out as the handler gave it, unless it was read and not stored.
     */
    method Save(key: string, r: Response, fault: bool) returns (sent: Response)
      modifies this
      ensures store == Saved(old(store), key, r, fault) && sent == Sent(r, fault)
      ensures forall k :: k != key ==> LookUp(store, k, false) == LookUp(old(store), k, false)
      ensures IsStored(r, fault) ==>
                LookUp(store, key, false) ==
                if Replayable(r.body.value) then Some(Response(r.status, JsonBody(Marked(r.body.value)))) else None
      ensures !IsStored(r, fault) ==> LookUp(store, key, false) == LookUp(old(store), key, false)
      ensures sent == r <==> !IsSuccess(r.status) || IsStored(r, fault) || r.body == EMPTY_BODY
    {
      sent := r;
      if 200 <= r.status < 300 {
        var body := r.body;
        sent := sent.(body := EMPTY_BODY);  // the iterator is drained
        if body.JsonBody? && !fault {
          store := store[key := Entry(r.status, body.value)];
          sent := Response(r.status, body);
        }
      }
    }
  }

  // ---- The protocol -----------------------------------------------------------------------------

  datatype Phase =
    | Arrived
    | Executing
    | Executed(response: Response)
    | Finished

  datatype Proc = Proc(key: string, phase: Phase)

  /** What happened, in order. `Missed` and `Replayed` are the two outcomes of a check. */
  datatype Event =
    | Missed(id: nat, key: string)
    | Replayed(id: nat, key: string, response: Response)
    | Ran(id: nat, key: string, outcome: Option<Response>)
    | Stored(id: nat, key: string, response: Response)

  datatype System = System(store: map<string, Entry>, procs: map<nat, Proc>, log: seq<Event>)

  datatype Step =
    | Arrive(id: nat, key: string)
    | Check(id: nat, fault: bool)
    | Handle(id: nat, outcome: Option<Response>)  // None: the handler raised
    | Store(id: nat, fault: bool)
    | Lose(key: string)  // the entry's time to live ran out

  predicate Enabled(s: System, a: Step) {
    match a
    case Arrive(id, _) => id !in s.procs
    case Check(id, _) => id in s.procs && s.procs[id].phase.Arrived?
    case Handle(id, _) => id in s.procs && s.procs[id].phase.Executing?
    case Store(id, _) => id in s.procs && s.procs[id].phase.Executed?
    case Lose(_) => true
  }

  function Enter(s: System, id: nat, phase: Phase): map<nat, Proc>
    requires id in s.procs
  {
    s.procs[id := s.procs[id].(phase := phase)]
  }

  function Next(s: System, a: Step): System
    requires Enabled(s, a)
  {
    match a
    case Arrive(id, key) => s.(procs := s.procs[id := Proc(key, Arrived)])
    case Check(id, fault) =>
      var key := s.procs[id].key;
      (match LookUp(s.store, key, fault)
       case Some(r) => System(s.store, Enter(s, id, Finished), s.log + [Replayed(id, key, r)])
       case None => System(s.store, Enter(s, id, Executing), s.log + [Missed(id, key)]))
    case Handle(id, outcome) =>
      System(s.store, Enter(s, id, if outcome.Some? then Executed(outcome.value) else Finished),
             s.log + [Ran(id, s.procs[id].key, outcome)])
    case Store(id, fault) =>
      var key, r := s.procs[id].key, s.procs[id].phase.response;
      System(Saved(s.store, key, r, fault), Enter(s, id, Finished),
             if IsStored(r, fault) then s.log + [Stored(id, key, r)] else s.log)
    case Lose(key) => s.(store := s.store - {key})
  }

  const START := System(map[], map[], [])

  ghost predicate IsRun(s: System, steps: seq<Step>)
    decreases |steps|
  {
    steps == [] || (Enabled(s, steps[0]) && IsRun(Next(s, steps[0]), steps[1..]))
  }

  ghost function End(s: System, steps: seq<Step>): System
    requires IsRun(s, steps)
    decreases |steps|
  {
    if steps == [] then s else End(Next(s, steps[0]), steps[1..])
  }

  // ---- In every reachable state, whatever fails ---------------------------------------------------

  /** Event `k` is the last store under the key. */
  ghost predicate LastStored(log: seq<Event>, key: string, k: nat) {
    && k < |log| && log[k].Stored? && log[k].key == key
    && forall m :: k < m < |log| && log[m].Stored? ==> log[m].key != key
  }

  /** Only JSON answers with status 200 to 299 are stored, each after the handler run of the same request that gave it. */
  ghost predicate StoresFollowRuns(log: seq<Event>) {
    forall k :: 0 <= k < |log| && log[k].Stored? ==>
      IsOk(log[k].response) && Ran(log[k].id, log[k].key, Some(log[k].response)) in log[..k]
  }

  predicate IsOk(r: Response) {
    200 <= r.status <= 299 && r.body.JsonBody?
  }

  /** Every cached entry is the answer that was stored last under its key. */
  ghost predicate StoreSound(s: System) {
    (forall key :: key in s.store ==> HoldsLastStored(s, key)) && StoresFollowRuns(s.log) && ExecutedRan(s)
  }

  ghost predicate HoldsLastStored(s: System, key: string)
    requires key in s.store
  {
    exists k: nat :: LastStored(s.log, key, k) && HoldsAnswer(s.store[key], s.log[k].response)
  }

  ghost predicate ExecutedRan(s: System) {
    forall id :: id in s.procs && s.procs[id].phase.Executed? ==>
      Ran(id, s.procs[id].key, Some(s.procs[id].phase.response)) in s.log
  }

  predicate HoldsAnswer(e: Entry, r: Response) {
    r == Response(e.status, JsonBody(e.body))
  }

  predicate IsReplayOf(replay: Response, r: Response) {
    r.body.JsonBody? && Replayable(r.body.value) && replay == Response(r.status, JsonBody(Marked(r.body.value)))
  }

  /** A replayed answer is the marked form of the answer that was stored last under the same key. */
  ghost predicate ReplaysSound(log: seq<Event>) {
    forall i :: 0 <= i < |log| && log[i].Replayed? ==>
      exists k: nat :: LastStored(log[..i], log[i].key, k) && IsReplayOf(log[i].response, log[k].response)
  }

  lemma LastStoredStays(log: seq<Event>, e: Event, key: string, k: nat)
    requires LastStored(log, key, k) && (e.Stored? ==> e.key != key)
    ensures LastStored(log + [e], key, k)
  {
  }

  lemma StepKeepsStoresFollowRuns(s: System, a: Step)
    requires Enabled(s, a) && StoreSound(s)
    ensures StoresFollowRuns(Next(s, a).log)
  {
    var log, log' := s.log, Next(s, a).log;
    forall k | 0 <= k < |log'| && log'[k].Stored?
      ensures IsOk(log'[k].response) && Ran(log'[k].id, log'[k].key, Some(log'[k].response)) in log'[..k]
    {
      if k < |log| {
        assert log'[k] == log[k] && log'[..k] == log[..k];
      } else {
        assert log'[..k] == log;
      }
    }
  }

  lemma StepKeepsExecutedRan(s: System, a: Step)
    requires Enabled(s, a) && ExecutedRan(s)
    ensures ExecutedRan(Next(s, a))
  {
    assert forall e :: e in s.log ==> e in Next(s, a).log;
  }

  lemma {:induction false} StepKeepsEntry(s: System, a: Step, key: string)
    requires Enabled(s, a) && key in Next(s, a).store
    requires key in s.store ==> HoldsLastStored(s, key)
    ensures HoldsLastStored(Next(s, a), key)
  {
    var s' := Next(s, a);
    if a.Store? && s'.log != s.log && key == s.procs[a.id].key {
      assert LastStored(s'.log, key, |s.log|);
    } else {
      var k: nat :| LastStored(s.log, key, k) && HoldsAnswer(s.store[key], s.log[k].response);
      if s'.log != s.log {
        var e := s'.log[|s.log|];
        assert s'.log == s.log + [e];
        LastStoredStays(s.log, e, key, k);
      }
      assert LastStored(s'.log, key, k);
    }
  }

  lemma {:induction false} StepKeepsStoreSound(s: System, a: Step)
    requires Enabled(s, a) && StoreSound(s)
    ensures StoreSound(Next(s, a))
  {
    StepKeepsStoresFollowRuns(s, a);
    StepKeepsExecutedRan(s, a);
    forall key | key in Next(s, a).store ensures HoldsLastStored(Next(s, a), key) {
      StepKeepsEntry(s, a, key);
    }
  }

  lemma StepKeepsReplaysSound(s: System, a: Step)
    requires Enabled(s, a) && StoreSound(s) && ReplaysSound(s.log)
    ensures ReplaysSound(Next(s, a).log)
  {
    var log' := Next(s, a).log;
    forall i | 0 <= i < |log'| && log'[i].Replayed?
      ensures exists k: nat :: LastStored(log'[..i], log'[i].key, k) && IsReplayOf(log'[i].response, log'[k].response)
    {
      if i < |s.log| {
        assert log'[..i] == s.log[..i] && log'[i] == s.log[i];
        var k: nat :| LastStored(s.log[..i], s.log[i].key, k) && IsReplayOf(s.log[i].response, s.log[k].response);
        assert log'[k] == s.log[k];
      } else {
        assert log'[..i] == s.log;
        var key := s.procs[a.id].key;
        var k: nat :| LastStored(s.log, key, k) && HoldsAnswer(s.store[key], s.log[k].response);
        assert log'[k] == s.log[k];
      }
    }
  }

  /** The store invariant and replay fidelity, over every interleaving with arbitrary faults and losses. */
  lemma {:induction false} RunIsSound(s: System, steps: seq<Step>)
    requires IsRun(s, steps) && StoreSound(s) && ReplaysSound(s.log)
    ensures StoreSound(End(s, steps)) && ReplaysSound(End(s, steps).log)
    decreases |steps|
  {
    if steps != [] {
      StepKeepsStoreSound(s, steps[0]);
      StepKeepsReplaysSound(s, steps[0]);
      RunIsSound(Next(s, steps[0]), steps[1..]);
    }
  }

  // ---- At most one check per request, and a run only after a miss ----------------------------------

  predicate IsCheck(e: Event, id: nat) {
    e.id == id && (e.Missed? || e.Replayed?)
  }

  /** Every event belongs to a request that has left the Arrived phase, under that request's key. */
  ghost predicate Owned(s: System) {
    forall i :: 0 <= i < |s.log| ==>
      && s.log[i].id in s.procs && s.log[i].key == s.procs[s.log[i].id].key
      && !s.procs[s.log[i].id].phase.Arrived?
  }

  ghost predicate OneCheckEach(log: seq<Event>) {
    forall i, j :: 0 <= i < j < |log| && IsCheck(log[i], log[i].id) ==> !IsCheck(log[j], log[i].id)
  }

  ghost predicate OneRunEach(log: seq<Event>) {
    forall i, j :: 0 <= i < j < |log| && log[i].Ran? && log[j].Ran? ==> log[i].id != log[j].id
  }

  /** A request executes, and has run, only after its check missed; it is not still executing once it ran. */
  ghost predicate RunsFollowMisses(s: System) {
    && (forall id :: id in s.procs && s.procs[id].phase.Executing? ==> Missed(id, s.procs[id].key) in s.log)
    && (forall i :: 0 <= i < |s.log| && s.log[i].Ran? ==>
          Missed(s.log[i].id, s.log[i].key) in s.log
          && s.log[i].id in s.procs && !s.procs[s.log[i].id].phase.Executing?)
  }

  ghost predicate Ordered(s: System) {
    Owned(s) && OneCheckEach(s.log) && OneRunEach(s.log) && RunsFollowMisses(s)
  }

  lemma StepKeepsOwned(s: System, a: Step)
    requires Enabled(s, a) && Owned(s)
    ensures Owned(Next(s, a))
  {
  }

  lemma StepKeepsOneEach(s: System, a: Step)
    requires Enabled(s, a) && Ordered(s)
    ensures OneCheckEach(Next(s, a).log) && OneRunEach(Next(s, a).log)
  {
    var log, log' := s.log, Next(s, a).log;
    assert |log'| <= |log| + 1 && forall i :: 0 <= i < |log| ==> log'[i] == log[i];
  }

  lemma StepKeepsRunsFollowMisses(s: System, a: Step)
    requires Enabled(s, a) && Ordered(s)
    ensures RunsFollowMisses(Next(s, a))
  {
    var s' := Next(s, a);
    assert s.log <= s'.log;
    assert forall e :: e in s.log ==> e in s'.log;
    forall i | 0 <= i < |s'.log| && s'.log[i].Ran?
      ensures Missed(s'.log[i].id, s'.log[i].key) in s'.log
      ensures s'.log[i].id in s'.procs && !s'.procs[s'.log[i].id].phase.Executing?
    {
      if i < |s.log| {
        assert s'.log[i] == s.log[i];
      }
    }
  }

  // ---- When the store neither fails nor forgets ----------------------------------------------------

  /** The step neither fails nor forgets, and an answer that may be stored has a `meta` that can be marked. */
  predicate Clean(a: Step) {
    match a
    case Check(_, fault) => !fault
    case Handle(_, outcome) =>
      outcome.Some? && IsStored(outcome.value, false) ==> Replayable(outcome.value.body.value)
    case Lose(_) => false
    case _ => true
  }

  /** A miss is never logged after a store of the same key. */
  ghost predicate MissesPrecedeStores(s: System) {
    && (forall k :: 0 <= k < |s.log| && s.log[k].Stored? ==> s.log[k].key in s.store)
    && (forall key :: key in s.store ==> Replayable(s.store[key].body))
    && (forall id :: id in s.procs && s.procs[id].phase.Executed? && IsStored(s.procs[id].phase.response, false) ==>
          Replayable(s.procs[id].phase.response.body.value))
    && (forall i, k :: 0 <= k < i < |s.log| && s.log[k].Stored? && s.log[i].Missed? ==> s.log[k].key != s.log[i].key)
  }

  lemma StepKeepsMissesFirst(s: System, a: Step)
    requires Enabled(s, a) && Clean(a) && MissesPrecedeStores(s)
    ensures MissesPrecedeStores(Next(s, a))
  {
  }

  lemma {:induction false} CleanRunInvariant(s: System, steps: seq<Step>)
    requires IsRun(s, steps) && Ordered(s) && MissesPrecedeStores(s)
    requires forall a :: a in steps ==> Clean(a)
    ensures Ordered(End(s, steps)) && MissesPrecedeStores(End(s, steps))
    decreases |steps|
  {
    if steps != [] {
      StepKeepsOwned(s, steps[0]);
      StepKeepsOneEach(s, steps[0]);
      StepKeepsRunsFollowMisses(s, steps[0]);
      StepKeepsMissesFirst(s, steps[0]);
      CleanRunInvariant(Next(s, steps[0]), steps[1..]);
    }
  }

  /**
    Once an answer is stored under a key, no request whose check comes later runs the handler, in
    any interleaving of checks, runs and stores.
   */
  lemma LateChecksNeverRun(steps: seq<Step>, c: nat, k: nat, r: nat)
    requires IsRun(START, steps) && forall a :: a in steps ==> Clean(a)
    requires var log := End(START, steps).log;
             && k < c < |log| && r < |log| && log[k].Stored? && log[k].key == log[c].key
             && IsCheck(log[c], log[c].id) && log[r].Ran?
    ensures End(START, steps).log[r].id != End(START, steps).log[c].id
  {
    CleanRunInvariant(START, steps);
    var log := End(START, steps).log;
    var m :| 0 <= m < |log| && log[m] == Missed(log[r].id, log[r].key);
  }

  // ---- Counting handler runs ------------------------------------------------------------------------

  function RunCount(log: seq<Event>, key: string): nat {
    if log == [] then 0
    else RunCount(log[..|log| - 1], key) + (if log[|log| - 1].Ran? && log[|log| - 1].key == key then 1 else 0)
  }

  /** The requests of a key that ran the handler. */
  function Runners(log: seq<Event>, key: string): set<nat> {
    set e | e in log && e.Ran? && e.key == key :: e.id
  }

  /** The requests of a key whose check was logged before the key's first store. */
  ghost function EarlyCheckers(log: seq<Event>, key: string): set<nat> {
    set i | 0 <= i < |log| && log[i].key == key && IsCheck(log[i], log[i].id) &&
            (forall k :: 0 <= k < i && log[k].Stored? ==> log[k].key != key) :: log[i].id
  }

  lemma {:induction false} RunCountIsRunners(log: seq<Event>, key: string)
    requires OneRunEach(log)
    ensures RunCount(log, key) == |Runners(log, key)|
    decreases |log|
  {
    if log != [] {
      var rest, e := log[..|log| - 1], log[|log| - 1];
      RunCountIsRunners(rest, key);
      assert log == rest + [e];
      if e.Ran? && e.key == key {
        assert e.id !in Runners(rest, key);
        assert Runners(log, key) == Runners(rest, key) + {e.id};
      } else {
        assert Runners(log, key) == Runners(rest, key);
      }
    }
  }

  lemma SubsetCount(a: set<nat>, b: set<nat>)
    requires a <= b
    ensures |a| <= |b|
  {
    assert b == a + (b - a);
  }

  /** Handler runs per key never exceed the requests that checked before the key's first store. */
  lemma RunsBoundedByEarlyChecks(steps: seq<Step>, key: string)
    requires IsRun(START, steps) && forall a :: a in steps ==> Clean(a)
    ensures var log := End(START, steps).log;
            && Runners(log, key) <= EarlyCheckers(log, key)
            && RunCount(log, key) <= |EarlyCheckers(log, key)|
  {
    CleanRunInvariant(START, steps);
    var log := End(START, steps).log;
    forall id | id in Runners(log, key) ensures id in EarlyCheckers(log, key) {
      var r :| 0 <= r < |log| && log[r].Ran? && log[r].key == key && log[r].id == id;
      var m :| 0 <= m < |log| && log[m] == Missed(id, key);
      assert IsCheck(log[m], id);
    }
    RunCountIsRunners(log, key);
    SubsetCount(Runners(log, key), EarlyCheckers(log, key));
  }

  /**
    The condition on `meta` is exact: an answer just stored is replayed to the next check of its key
    if and only if its `meta` is absent or a mapping; otherwise the handler runs again.
   */
  lemma StoredAnswerReplaysIff(store: map<string, Entry>, key: string, r: Response)
    requires IsSuccess(r.status) && r.body.JsonBody?
    ensures var after := Saved(store, key, r, false);
            && (LookUp(after, key, false).Some? <==> Replayable(r.body.value))
            && (Replayable(r.body.value) ==>
                LookUp(after, key, false) == Some(Response(r.status, JsonBody(Marked(r.body.value)))))
  {
  }

  /** The handler runs exactly when the look-up raises, nothing is stored under the key, or its `meta` is no mapping. */
  lemma MissedIff(store: map<string, Entry>, key: string, fault: bool)
    ensures LookUp(store, key, fault) == None <==>
            || fault || key !in store
            || (&& store[key].body.Dict? && "meta" in store[key].body.entries
                && !store[key].body.entries["meta"].Dict?)
  {
  }

  function EntryAt(store: map<string, Entry>, key: string): Option<Entry> {
    if key in store then Some(store[key]) else None
  }

  /**
    What one step does to one entry: it is lost when its own time runs out, replaced by a good answer that is
    stored under its key, and otherwise left alone. Only the request whose step it is moves on.
   */
  lemma EntryAfterStep(s: System, a: Step, key: string, id: nat)
    requires Enabled(s, a)
    ensures EntryAt(Next(s, a).store, key) ==
            if a == Lose(key) then None
            else if a.Store? && !a.fault && s.procs[a.id].key == key && IsOk(s.procs[a.id].phase.response) then
              Some(Entry(s.procs[a.id].phase.response.status, s.procs[a.id].phase.response.body.value))
            else EntryAt(s.store, key)
    ensures id in s.procs && (a.Lose? || a.id != id) ==> id in Next(s, a).procs && Next(s, a).procs[id] == s.procs[id]
  {
  }

  /** A handler's answer that is stored: status 200 to 299, a JSON body, and a store that works - and only then. */
  lemma StoredIff(store: map<string, Entry>, key: string, r: Response, fault: bool)
    ensures Saved(store, key, r, fault) ==
            if 200 <= r.status <= 299 && r.body.JsonBody? && !fault then store[key := Entry(r.status, r.body.value)] else store
  {
  }

  /**
    What becomes of one request, undisturbed: its check finds an answer and that is the end of it; or it misses,
    the handler runs, and what it answers is stored if it may be.
   */
  lemma RequestTrace(s: System, id: nat, key: string, outcome: Response)
    requires id !in s.procs
    ensures var checked := Next(Next(s, Arrive(id, key)), Check(id, false));
            && checked.store == s.store
            && (if key in s.store && Replayable(s.store[key].body) then
                  && checked.procs[id].phase == Finished
                  && checked.log == s.log + [Replayed(id, key, ReplayOf(s.store[key]))]
                else
                  && checked.procs[id].phase == Executing && checked.log == s.log + [Missed(id, key)]
                  && Next(checked, Handle(id, None)).procs[id].phase == Finished
                  && (var end := Next(Next(checked, Handle(id, Some(outcome))), Store(id, false));
                      && end.procs[id].phase == Finished
                      && end.log == s.log + [Missed(id, key), Ran(id, key, Some(outcome))]
                                    + (if IsOk(outcome) then [Stored(id, key, outcome)] else [])
                      && (if IsOk(outcome) then end.store == s.store[key := Entry(outcome.status, outcome.body.value)]
                          else end.store == s.store)))
  {
  }

  /** The shortest run in which a null `meta` makes one key run its handler twice, the second time after a store. */
  lemma NullMetaRunsTwice(key: string)
    ensures var r := Some(Response(200, JsonBody(Dict(map["meta" := Null]))));
            var ran := Next(Next(Next(START, Arrive(0, key)), Check(0, false)), Handle(0, r));
            var again := Next(Next(Next(Next(ran, Store(0, false)), Arrive(1, key)), Check(1, false)), Handle(1, r));
            again.log == [Missed(0, key), Ran(0, key, r), Stored(0, key, r.value), Missed(1, key), Ran(1, key, r)]
  {
    var r := Some(Response(200, JsonBody(Dict(map["meta" := Null]))));
    var ran := Next(Next(Next(START, Arrive(0, key)), Check(0, false)), Handle(0, r));
    assert ran.log == [Missed(0, key), Ran(0, key, r)];
    var stored := Next(ran, Store(0, false));
    assert stored.log == [Missed(0, key), Ran(0, key, r), Stored(0, key, r.value)];
  }
}
