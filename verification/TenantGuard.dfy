/** The guard on the tenant lifecycle: it reads the table of allowed status changes and lists its flaws. */
module TenantGuard {
  const TERMINAL_STATES: set<string> := {"terminated"}

  /** An item of the transition dictionary. */
  datatype Rule = Rule(source: string, targets: seq<string>)

  /** The dictionary as its items; keys occur once. */
  ghost predicate IsTable(table: seq<Rule>) {
    forall i, k :: 0 <= i < k < |table| ==> table[i].source != table[k].source
  }

  datatype Finding =
    | UnknownSource(source: string)
    | UnknownTarget(source: string, target: string)
    | SelfTransition(source: string)
    | TerminalExit(source: string)

  /** What each finding says is wrong with the table. */
  ghost predicate Holds(f: Finding, states: seq<string>, table: seq<Rule>) {
    match f
    case UnknownSource(s) => s !in states && exists r :: r in table && r.source == s
    case UnknownTarget(s, t) => t !in states && Allows(table, s, t)
    case SelfTransition(s) => Allows(table, s, s)
    case TerminalExit(s) => s in TERMINAL_STATES && exists t :: Allows(table, s, t)
  }

  /** The table allows the change from `s` to `t`. */
  ghost predicate Allows(table: seq<Rule>, s: string, t: string) {
    exists r :: r in table && r.source == s && t in r.targets
  }

  /** `check_state_machine`: exactly the flaws of the table, each at least once. */
  method CheckStateMachine(states: seq<string>, table: seq<Rule>) returns (findings: seq<Finding>)
    requires IsTable(table)
    ensures forall f :: f in findings <==> Holds(f, states, table)
  {
    findings := [];
    for i := 0 to |table|
      invariant forall f :: f in findings <==> !f.TerminalExit? && Holds(f, states, table[..i])
    {
      var found := CheckRule(states, table[i]);
      OneMoreRule(states, table, i, found);
      findings := findings + found;
    }
    assert table[..|table|] == table;
    var pending := TERMINAL_STATES;
    while pending != {}
      invariant pending <= TERMINAL_STATES
      invariant forall f :: f in findings <==>
        Holds(f, states, table) && (f.TerminalExit? ==> f.source in TERMINAL_STATES - pending)
    {
      var term :| term in pending;
      pending := pending - {term};
      var targets := Lookup(table, term);
      if targets != [] {
        findings := findings + [TerminalExit(term)];
        assert targets[0] in targets;
      }
    }
  }

  /** The inner loop, for one source. */
  method CheckRule(states: seq<string>, rule: Rule) returns (found: seq<Finding>)
    ensures forall f :: f in found <==> !f.TerminalExit? && Holds(f, states, [rule])
  {
    found := if rule.source !in states then [UnknownSource(rule.source)] else [];
    for k := 0 to |rule.targets|
      invariant forall f :: f in found <==> InRule(f, states, rule, k)
    {
      var t := rule.targets[k];
      if t !in states {
        found := found + [UnknownTarget(rule.source, t)];
      }
      if t == rule.source {
        found := found + [SelfTransition(rule.source)];
      }
    }
    RuleIsItsTable(states, rule);
  }

  /** The findings about one rule when its first `k` targets have been looked at. */
  ghost predicate InRule(f: Finding, states: seq<string>, rule: Rule, k: nat)
    requires k <= |rule.targets|
  {
    match f
    case UnknownSource(s) => s == rule.source && s !in states
    case UnknownTarget(s, t) => s == rule.source && t !in states && t in rule.targets[..k]
    case SelfTransition(s) => s == rule.source && s in rule.targets[..k]
    case TerminalExit(_) => false
  }

  lemma RuleIsItsTable(states: seq<string>, rule: Rule)
    ensures forall f :: InRule(f, states, rule, |rule.targets|) <==> !f.TerminalExit? && Holds(f, states, [rule])
  {
    assert rule.targets[..|rule.targets|] == rule.targets;
    assert rule in [rule];
  }

  lemma AllowsMore(table: seq<Rule>, i: nat, s: string, t: string)
    requires i < |table|
    ensures Allows(table[..i + 1], s, t) <==> Allows(table[..i], s, t) || Allows([table[i]], s, t)
  {
    assert table[..i + 1] == table[..i] + [table[i]];
    if Allows(table[..i], s, t) {
      var r :| r in table[..i] && r.source == s && t in r.targets;
      assert r in table[..i + 1];
    }
    if Allows([table[i]], s, t) {
      assert table[i] in table[..i + 1];
    }
  }

  lemma OneMoreRule(states: seq<string>, table: seq<Rule>, i: nat, found: seq<Finding>)
    requires i < |table|
    requires forall f :: f in found <==> !f.TerminalExit? && Holds(f, states, [table[i]])
    ensures forall f: Finding :: !f.TerminalExit? && Holds(f, states, table[..i + 1]) <==>
              (!f.TerminalExit? && Holds(f, states, table[..i])) || f in found
  {
    forall f: Finding | !f.TerminalExit?
      ensures Holds(f, states, table[..i + 1]) <==> Holds(f, states, table[..i]) || Holds(f, states, [table[i]])
    {
      match f
      case UnknownSource(s) => SourcesMore(table, i, s);
      case UnknownTarget(s, t) => AllowsMore(table, i, s, t);
      case SelfTransition(s) => AllowsMore(table, i, s, s);
      case TerminalExit(_) =>
    }
  }

  lemma SourcesMore(table: seq<Rule>, i: nat, s: string)
    requires i < |table|
    ensures (exists r :: r in table[..i + 1] && r.source == s) <==>
            (exists r :: r in table[..i] && r.source == s) || (exists r :: r in [table[i]] && r.source == s)
  {
    assert table[..i + 1] == table[..i] + [table[i]];
    assert table[i] in table[..i + 1];
    assert forall r :: r in table[..i] ==> r in table[..i + 1];
  }

  /** `transitions.get(term)`, the empty list standing for a missing key. */
  method Lookup(table: seq<Rule>, s: string) returns (targets: seq<string>)
    requires IsTable(table)
    ensures forall t :: t in targets <==> Allows(table, s, t)
  {
    targets := [];
    for i := 0 to |table|
      invariant forall k :: 0 <= k < i ==> table[k].source != s
      invariant targets == []
    {
      if table[i].source == s {
        forall t ensures t in table[i].targets <==> Allows(table, s, t) {
          if t in table[i].targets {
            assert table[i] in table;
          }
        }
        return table[i].targets;
      }
    }
  }

  // ---- What an empty list of findings means -----------------------------------------------------------

  ghost predicate WellFormed(states: seq<string>, table: seq<Rule>) {
    && (forall r :: r in table ==> r.source in states)
    && (forall s, t :: Allows(table, s, t) ==> t in states && t != s && s != "terminated")
  }

  lemma NoFindingsIffWellFormed(states: seq<string>, table: seq<Rule>)
    ensures (forall f :: !Holds(f, states, table)) <==> WellFormed(states, table)
  {
    if forall f :: !Holds(f, states, table) {
      forall r | r in table ensures r.source in states {
        assert !Holds(UnknownSource(r.source), states, table);
      }
      forall s, t | Allows(table, s, t) ensures t in states && t != s && s != "terminated" {
        assert !Holds(UnknownTarget(s, t), states, table);
        assert !Holds(SelfTransition(s), states, table);
        assert !Holds(TerminalExit(s), states, table);
      }
    }
  }

  /** A history of a tenant: consecutive statuses are allowed changes. */
  ghost predicate IsRun(table: seq<Rule>, run: seq<string>) {
    run != [] && forall i :: 0 < i < |run| ==> Allows(table, run[i - 1], run[i])
  }

  /** Only declared statuses, a real change at every step, and nothing after a terminal status. */
  ghost predicate IsSafe(states: seq<string>, run: seq<string>) {
    && (forall i :: 0 <= i < |run| ==> run[i] in states)
    && (forall i :: 0 < i < |run| ==> IsRealChange(run, i))
  }

  predicate IsRealChange(run: seq<string>, i: nat)
    requires 0 < i < |run|
  {
    run[i] != run[i - 1] && run[i - 1] != "terminated"
  }

  /**
    The guard is sound and complete for runs of every length: it finds nothing exactly when every
    source is declared and every run from a declared status is safe.
   */
  lemma GuardIffRunsAreSafe(states: seq<string>, table: seq<Rule>)
    ensures (forall f :: !Holds(f, states, table)) <==>
            (forall r :: r in table ==> r.source in states) &&
            (forall run :: IsRun(table, run) && run[0] in states ==> IsSafe(states, run))
  {
    NoFindingsIffWellFormed(states, table);
    if WellFormed(states, table) {
      forall run | IsRun(table, run) && run[0] in states ensures IsSafe(states, run) {
        RunsAreSafe(states, table, run);
      }
    }
    if (forall r :: r in table ==> r.source in states) &&
       (forall run :: IsRun(table, run) && run[0] in states ==> IsSafe(states, run)) {
      forall s, t | Allows(table, s, t) ensures t in states && t != s && s != "terminated" {
        var run := [s, t];
        assert IsRun(table, run);
        assert run[0] in states;
        assert run[1] in states && IsRealChange(run, 1);
      }
    }
  }

  lemma RunsAreSafe(states: seq<string>, table: seq<Rule>, run: seq<string>)
    requires WellFormed(states, table) && IsRun(table, run) && run[0] in states
    ensures IsSafe(states, run)
  {
    forall i | 0 < i < |run| ensures run[i] in states && IsRealChange(run, i) {
      assert Allows(table, run[i - 1], run[i]);
    }
  }
}
