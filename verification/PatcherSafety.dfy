/** Why working bottom-up with the original line numbers is right, and what it leaves of the file. */
module PatcherSafety {
  import opened Wrappers
  import opened Sequences
  import opened Text
  import opened Patcher
  import opened PatcherEdits

  ghost predicate StrictlyDescending(fs: seq<Finding>) {
    forall i, k :: 0 <= i < k < |fs| ==> fs[i].line > fs[k].line
  }

  ghost predicate DistinctLines(fs: seq<Finding>) {
    forall i, k :: 0 <= i < k < |fs| ==> fs[i].line != fs[k].line
  }

  lemma {:induction false} InsertDescends(f: Finding, fs: seq<Finding>)
    requires Descending(fs) && StrictlyDescending(fs) && forall i :: 0 <= i < |fs| ==> fs[i].line != f.line
    ensures StrictlyDescending(Insert(f, fs))
  {
    if fs != [] && f.line < fs[0].line {
      InsertDescends(f, fs[1..]);
      var rest := Insert(f, fs[1..]);
      forall i | 0 <= i < |rest| ensures rest[i].line < fs[0].line {
        assert rest[i] in multiset(rest);
      }
    }
  }

  /** Sorting findings of distinct lines leaves no ties. */
  lemma {:induction false} BottomUpDescends(fs: seq<Finding>)
    requires DistinctLines(fs)
    ensures StrictlyDescending(BottomUp(fs))
  {
    if fs != [] {
      var rest := BottomUp(fs[1..]);
      BottomUpDescends(fs[1..]);
      forall i | 0 <= i < |rest| ensures rest[i].line != fs[0].line {
        assert rest[i] in multiset(rest);
        assert rest[i] in fs[1..];
      }
      InsertDescends(fs[0], rest);
    }
  }

  /** The findings on one line, in order. */
  function OnLine(fs: seq<Finding>, line: nat): seq<Finding> {
    if fs == [] then [] else (if fs[0].line == line then [fs[0]] else []) + OnLine(fs[1..], line)
  }

  lemma {:induction false} InsertIsStable(f: Finding, fs: seq<Finding>, line: nat)
    requires Descending(fs)
    ensures OnLine(Insert(f, fs), line) == (if f.line == line then [f] else []) + OnLine(fs, line)
  {
    if fs != [] && f.line < fs[0].line {
      InsertIsStable(f, fs[1..], line);
      var rest := Insert(f, fs[1..]);
      assert ([fs[0]] + rest)[1..] == rest;
    } else {
      assert ([f] + fs)[1..] == fs;
    }
  }

  /** The sort is stable: findings on the same line are fixed in the order in which they were reported. */
  lemma {:induction false} BottomUpIsStable(fs: seq<Finding>, line: nat)
    ensures OnLine(BottomUp(fs), line) == OnLine(fs, line)
  {
    if fs != [] {
      BottomUpIsStable(fs[1..], line);
      InsertIsStable(fs[0], BottomUp(fs[1..]), line);
    }
  }

  // ---- Stale line numbers stay right -------------------------------------------------------------------

  /** A fix leaves everything above its reported line alone and never shortens the file. */
  lemma EditStaysBelow(lines: seq<string>, f: Finding)
    requires f.line > 0
    ensures var after := Apply(lines, EditFor(lines, f));
            && |lines| <= |after| <= |lines| + 1
            && (f.line - 1 <= |lines| ==> after[..f.line - 1] == lines[..f.line - 1])
  {
  }

  lemma {:induction false} PrefixSurvives(lines: seq<string>, fs: seq<Finding>, top: nat)
    requires OneBased(fs) && top <= |lines|
    requires forall i :: 0 <= i < |fs| ==> fs[i].line > top
    ensures |lines| <= |Process(lines, fs)| && Process(lines, fs)[..top] == lines[..top]
    decreases |fs|
  {
    if fs != [] {
      var f := fs[0];
      EditStaysBelow(lines, f);
      var after := Apply(lines, EditFor(lines, f));
      if f.line - 1 <= |lines| {
        assert after[..top] == after[..f.line - 1][..top] == lines[..f.line - 1][..top] == lines[..top];
      } else {
        assert EditFor(lines, f) == Nothing;
      }
      PrefixSurvives(after, fs[1..], top);
    }
  }

  /**
    When a finding's turn comes, every line of the file up to and including the reported one is
    still the line the guard saw.
   */
  lemma ReportedLinesAreOriginal(lines: seq<string>, findings: seq<Finding>, i: nat)
    requires OneBased(findings) && DistinctLines(findings)
    requires var order := BottomUp(findings); i < |order| && order[i].line <= |lines|
    ensures var order := BottomUp(findings);
            && OneBased(order)
            && (var current := Process(lines, order[..i]);
                && |lines| <= |current|
                && current[..order[i].line] == lines[..order[i].line])
  {
    var order := BottomUp(findings);
    SameFindings(findings);
    BottomUpDescends(findings);
    PrefixSurvives(lines, order[..i], order[i].line);
  }

  // ---- What became of each line ------------------------------------------------------------------------

  /** A line with where it came from (None if it was inserted) and how often it was edited. */
  datatype Marked = Marked(text: string, origin: Option<nat>, edits: nat)

  function Texts(ms: seq<Marked>): (ts: seq<string>)
    ensures |ts| == |ms| && forall i :: 0 <= i < |ts| ==> ts[i] == ms[i].text
  {
    seq(|ms|, i requires 0 <= i < |ms| => ms[i].text)
  }

  function Untouched(lines: seq<string>): (ms: seq<Marked>)
    ensures |ms| == |lines| && forall i :: 0 <= i < |ms| ==> ms[i] == Marked(lines[i], Some(i), 0)
  {
    seq(|lines|, i requires 0 <= i < |lines| => Marked(lines[i], Some(i), 0))
  }

  /** The same edit on marked lines. */
  function Trace(ms: seq<Marked>, e: Edit): seq<Marked>
    requires Fits(Texts(ms), e)
  {
    match e
    case Nothing => ms
    case Change(i, text) => ms[i := ms[i].(text := text, edits := ms[i].edits + 1)]
    case Insertion(i, text) => ms[..i] + [Marked(text, None, 0)] + ms[i..]
  }

  function TraceAll(ms: seq<Marked>, fs: seq<Finding>): seq<Marked>
    requires OneBased(fs)
    decreases |fs|
  {
    if fs == [] then ms else TraceAll(Trace(ms, EditFor(Texts(ms), fs[0])), fs[1..])
  }

  function Insertions(lines: seq<string>, fs: seq<Finding>): nat
    requires OneBased(fs)
    decreases |fs|
  {
    if fs == [] then 0
    else
      var e := EditFor(lines, fs[0]);
      (if e.Insertion? then 1 else 0) + Insertions(Apply(lines, e), fs[1..])
  }

  /** `y` is `x` after `n` of the fixer's two kinds of line edit. */
  ghost predicate Reaches(x: string, y: string, n: nat)
    decreases n
  {
    if n == 0 then x == y
    else exists z :: Reaches(x, z, n - 1) && (Guards(z, y) || Extends(z, y))
  }

  /** The origins read off from top to bottom, inserted lines left out. */
  function Origins(ms: seq<Marked>): seq<nat> {
    if ms == [] then []
    else (if ms[0].origin.Some? then [ms[0].origin.value] else []) + Origins(ms[1..])
  }

  function Inserted(ms: seq<Marked>): nat {
    if ms == [] then 0 else (if ms[0].origin.None? then 1 else 0) + Inserted(ms[1..])
  }

  /** How often the lines have been edited, all together. */
  function Edited(ms: seq<Marked>): nat {
    if ms == [] then 0 else ms[0].edits + Edited(ms[1..])
  }

  /** Indentation, the auth parameter, a comma. */
  ghost predicate IsParameterLine(t: string) {
    exists indent :: ParameterAfter(t, indent)
  }

  predicate ParameterAfter(t: string, indent: string) {
    (forall i :: 0 <= i < |indent| ==> IsBlank(indent[i])) && t == indent + ("u: UserContext = " + "Depends(require_super_admin)") + ","
  }

  lemma {:induction false} SkipIndent(indent: string, rest: string)
    requires forall i :: 0 <= i < |indent| ==> IsBlank(indent[i])
    requires rest != "" && !IsBlank(rest[0])
    ensures SkipBlanks(indent + rest) == rest
  {
    if indent == "" {
      assert indent + rest == rest;
    } else {
      assert (indent + rest)[1..] == indent[1..] + rest;
      SkipIndent(indent[1..], rest);
    }
  }

  lemma ParameterSpelling()
    ensures 'g' !in PARAMETER && PARAMETER[0] == 'u' && BARE[8] == 'g'
  {
    assert 'g' !in NEW_NAME;
    assert 'g' !in GUARDED;
  }

  /** An inserted line is neither a definition nor a bare dependency, so no later fix edits it. */
  lemma ParameterLinesAreInert(t: string)
    requires IsParameterLine(t)
    ensures !IsBare(t) && !IsDef(t)
  {
    var indent :| ParameterAfter(t, indent);
    var rest := PARAMETER + ",";
    ParameterSpelling();
    assert t == indent + rest;
    assert rest[0] == 'u';
    SkipIndent(indent, rest);
    assert 'g' !in indent;
    assert 'g' !in t;
    forall i | 0 <= i <= |t| ensures !OccursAt(t, BARE, i) {
      if i + |BARE| <= |t| {
        assert t[i..i + |BARE|][8] == t[i + 8];
      }
    }
  }

  lemma {:induction false} LeadingBlanksAreBlank(s: string)
    ensures forall i :: 0 <= i < |LeadingBlanks(s)| ==> IsBlank(LeadingBlanks(s)[i])
  {
    if s != "" && IsBlank(s[0]) {
      LeadingBlanksAreBlank(s[1..]);
    }
  }

  /** Every line is an original one, edited so many times, or a new parameter line as it was inserted. */
  ghost predicate Accounted(lines: seq<string>, ms: seq<Marked>) {
    forall i :: 0 <= i < |ms| ==> LineAccounted(lines, ms[i])
  }

  lemma TraceFollows(ms: seq<Marked>, e: Edit)
    requires Fits(Texts(ms), e)
    ensures Texts(Trace(ms, e)) == Apply(Texts(ms), e)
  {
  }

  lemma {:induction false} OriginsConcat(xs: seq<Marked>, ys: seq<Marked>)
    ensures Origins(xs + ys) == Origins(xs) + Origins(ys)
  {
    if xs == [] {
      assert xs + ys == ys;
    } else {
      assert (xs + ys)[1..] == xs[1..] + ys;
      OriginsConcat(xs[1..], ys);
      Assoc(if xs[0].origin.Some? then [xs[0].origin.value] else [], Origins(xs[1..]), Origins(ys));
    }
  }

  lemma {:induction false} InsertedConcat(xs: seq<Marked>, ys: seq<Marked>)
    ensures Inserted(xs + ys) == Inserted(xs) + Inserted(ys)
  {
    if xs == [] {
      assert xs + ys == ys;
    } else {
      assert (xs + ys)[1..] == xs[1..] + ys;
      InsertedConcat(xs[1..], ys);
    }
  }

  /** One more line in front. */
  lemma {:induction false} OriginsCons(m: Marked, ms: seq<Marked>)
    ensures Origins([m] + ms) == if m.origin.Some? then [m.origin.value] + Origins(ms) else Origins(ms)
    ensures Inserted([m] + ms) == (if m.origin.None? then 1 else 0) + Inserted(ms)
  {
    assert ([m] + ms)[1..] == ms;
  }

  lemma {:induction false} ChangeKeepsOrigins(ms: seq<Marked>, i: nat, m: Marked)
    requires i < |ms| && m.origin == ms[i].origin
    ensures Origins(ms[i := m]) == Origins(ms) && Inserted(ms[i := m]) == Inserted(ms)
  {
    var front, back := ms[..i], ms[i + 1..];
    SplitAround(ms, i);
    UpdateSplits(ms, i, m);
    OriginsConcat(front, [ms[i]] + back);
    OriginsConcat(front, [m] + back);
    InsertedConcat(front, [ms[i]] + back);
    InsertedConcat(front, [m] + back);
    OriginsCons(ms[i], back);
    OriginsCons(m, back);
  }

  lemma {:induction false} InsertionKeepsOrigins(ms: seq<Marked>, i: nat, m: Marked)
    requires i <= |ms| && m.origin.None?
    ensures Origins(ms[..i] + [m] + ms[i..]) == Origins(ms)
    ensures Inserted(ms[..i] + [m] + ms[i..]) == Inserted(ms) + 1
  {
    var front, back := ms[..i], ms[i..];
    SplitAt(ms, i);
    Assoc(front, [m], back);
    OriginsConcat(front, back);
    OriginsConcat(front, [m] + back);
    InsertedConcat(front, back);
    InsertedConcat(front, [m] + back);
    OriginsCons(m, back);
  }

  lemma {:induction false} TraceKeepsOrigins(ms: seq<Marked>, e: Edit)
    requires Fits(Texts(ms), e)
    ensures Origins(Trace(ms, e)) == Origins(ms)
    ensures Inserted(Trace(ms, e)) == Inserted(ms) + (if e.Insertion? then 1 else 0)
  {
    match e
    case Nothing =>
    case Change(i, text) => ChangeKeepsOrigins(ms, i, ms[i].(text := text, edits := ms[i].edits + 1));
    case Insertion(i, text) => InsertionKeepsOrigins(ms, i, Marked(text, None, 0));
  }

  /** What an edit writes: one of the two rewritings of the line it replaces, or a parameter line. */
  lemma EditWrites(lines: seq<string>, f: Finding)
    requires f.line > 0
    ensures WritesWell(lines, EditFor(lines, f))
  {
    var e := EditFor(lines, f);
    if e.Insertion? {
      var stop := Window(lines, f.line - 1, 10);
      var d := FirstIn(lines, IsDef, f.line - 1, stop);
      LeadingBlanksAreBlank(lines[d]);
      assert ParameterAfter(e.text, LeadingBlanks(lines[d]) + "    ");
    } else if e.Change? && f.severity.BareAuthentication? {
      ReplacingGuards(lines[e.at]);
    } else if e.Change? {
      RewritingExtends(lines[e.at]);
    }
  }

  ghost predicate LineAccounted(lines: seq<string>, m: Marked) {
    match m.origin
    case Some(k) => k < |lines| && Reaches(lines[k], m.text, m.edits)
    case None => IsParameterLine(m.text) && m.edits == 0
  }

  lemma ChangeKeepsAccount(lines: seq<string>, m: Marked, text: string)
    requires LineAccounted(lines, m) && (IsBare(m.text) || IsDef(m.text))
    requires Guards(m.text, text) || Extends(m.text, text)
    ensures LineAccounted(lines, m.(text := text, edits := m.edits + 1))
  {
    if m.origin.None? {
      ParameterLinesAreInert(m.text);
    } else {
      assert Reaches(lines[m.origin.value], m.text, (m.edits + 1) - 1);
    }
  }

  lemma TraceOfGoodEdit(lines: seq<string>, ms: seq<Marked>, e: Edit)
    requires Fits(Texts(ms), e) && Accounted(lines, ms)
    requires e.Change? ==> LineAccounted(lines, ms[e.at].(text := e.text, edits := ms[e.at].edits + 1))
    requires e.Insertion? ==> LineAccounted(lines, Marked(e.text, None, 0))
    ensures Accounted(lines, Trace(ms, e))
  {
  }

  /** What the edits write keeps every line accounted for. */
  ghost predicate WritesWell(lines: seq<string>, e: Edit) {
    && (e.Change? ==>
          && e.at < |lines| && (IsBare(lines[e.at]) || IsDef(lines[e.at]))
          && (Guards(lines[e.at], e.text) || Extends(lines[e.at], e.text)))
    && (e.Insertion? ==> IsParameterLine(e.text))
  }

  lemma GoodChangeKeepsAccount(lines: seq<string>, m: Marked, at: nat, texts: seq<string>, text: string)
    requires at < |texts| && texts[at] == m.text
    requires LineAccounted(lines, m) && WritesWell(texts, Change(at, text))
    ensures LineAccounted(lines, m.(text := text, edits := m.edits + 1))
  {
    ChangeKeepsAccount(lines, m, text);
  }

  lemma {:induction false} GoodEditKeepsAccount(lines: seq<string>, ms: seq<Marked>, e: Edit)
    requires Fits(Texts(ms), e) && Accounted(lines, ms) && WritesWell(Texts(ms), e)
    ensures Accounted(lines, Trace(ms, e))
  {
    match e {
      case Nothing =>
      case Change(i, text) => GoodChangeKeepsAccount(lines, ms[i], i, Texts(ms), text);
      case Insertion(i, text) => assert LineAccounted(lines, Marked(text, None, 0));
    }
    TraceOfGoodEdit(lines, ms, e);
  }

  lemma TraceKeepsAccount(lines: seq<string>, ms: seq<Marked>, f: Finding)
    requires f.line > 0 && Accounted(lines, ms)
    ensures Accounted(lines, Trace(ms, EditFor(Texts(ms), f)))
  {
    EditWrites(Texts(ms), f);
    GoodEditKeepsAccount(lines, ms, EditFor(Texts(ms), f));
  }

  lemma {:induction false} TraceAllFollows(lines: seq<string>, ms: seq<Marked>, fs: seq<Finding>)
    requires OneBased(fs) && Accounted(lines, ms)
    ensures var end := TraceAll(ms, fs);
            && Texts(end) == Process(Texts(ms), fs) && Origins(end) == Origins(ms) && Accounted(lines, end)
            && Inserted(end) == Inserted(ms) + Insertions(Texts(ms), fs)
    decreases |fs|
  {
    if fs != [] {
      var e := EditFor(Texts(ms), fs[0]);
      TraceFollows(ms, e);
      TraceKeepsOrigins(ms, e);
      TraceKeepsAccount(lines, ms, fs[0]);
      TraceAllFollows(lines, Trace(ms, e), fs[1..]);
    }
  }

  // ---- The reported counts -------------------------------------------------------------------------------

  lemma {:induction false} EditedConcat(xs: seq<Marked>, ys: seq<Marked>)
    ensures Edited(xs + ys) == Edited(xs) + Edited(ys)
  {
    if xs == [] {
      assert xs + ys == ys;
    } else {
      assert (xs + ys)[1..] == xs[1..] + ys;
      EditedConcat(xs[1..], ys);
    }
  }

  lemma {:induction false} EditedAround(front: seq<Marked>, m: Marked, back: seq<Marked>)
    ensures Edited(front + ([m] + back)) == Edited(front) + m.edits + Edited(back)
  {
    EditedConcat(front, [m] + back);
    assert ([m] + back)[1..] == back;
  }

  lemma {:induction false} TraceCounts(ms: seq<Marked>, e: Edit)
    requires Fits(Texts(ms), e)
    ensures Edited(Trace(ms, e)) == Edited(ms) + (if e.Change? then 1 else 0)
  {
    match e
    case Nothing =>
    case Change(i, text) =>
      var m := ms[i].(text := text, edits := ms[i].edits + 1);
      SplitAround(ms, i);
      UpdateSplits(ms, i, m);
      EditedAround(ms[..i], ms[i], ms[i + 1..]);
      EditedAround(ms[..i], m, ms[i + 1..]);
    case Insertion(i, text) =>
      SplitAt(ms, i);
      Assoc(ms[..i], [Marked(text, None, 0)], ms[i..]);
      EditedAround(ms[..i], Marked(text, None, 0), ms[i..]);
      EditedConcat(ms[..i], ms[i..]);
  }

  lemma {:induction false} TraceAllCounts(ms: seq<Marked>, fs: seq<Finding>)
    requires OneBased(fs)
    ensures Edited(TraceAll(ms, fs)) + Inserted(TraceAll(ms, fs))
            == Edited(ms) + Inserted(ms)
               + FixedCount(Texts(ms), fs, BareAuthentication) + FixedCount(Texts(ms), fs, MissingAuthentication)
    decreases |fs|
  {
    if fs != [] {
      var e := EditFor(Texts(ms), fs[0]);
      TraceFollows(ms, e);
      TraceCounts(ms, e);
      TraceKeepsOrigins(ms, e);
      TraceAllCounts(Trace(ms, e), fs[1..]);
    }
  }

  /**
    The counts that are reported are conserved: together they are the edits of all lines plus the lines inserted,
    and a severity that no finding has counts for nothing.
   */
  lemma {:induction false} CountsAreEdits(lines: seq<string>, fs: seq<Finding>)
    requires OneBased(fs)
    ensures var end := TraceAll(Untouched(lines), fs);
            FixedCount(lines, fs, BareAuthentication) + FixedCount(lines, fs, MissingAuthentication)
            == Edited(end) + Inserted(end)
    ensures forall s :: (forall i :: 0 <= i < |fs| ==> fs[i].severity != s) ==> FixedCount(lines, fs, s) == 0
  {
    var ms := Untouched(lines);
    assert Texts(ms) == lines;
    TraceAllCounts(ms, fs);
    UntouchedCounts(lines, |lines|);
    UntouchedOrigins(lines, |lines|);
    assert ms[..|lines|] == ms;
    forall s | forall i :: 0 <= i < |fs| ==> fs[i].severity != s ensures FixedCount(lines, fs, s) == 0 {
      OthersCountNothing(lines, fs, s);
    }
  }

  lemma {:induction false} OthersCountNothing(lines: seq<string>, fs: seq<Finding>, s: Severity)
    requires OneBased(fs) && forall i :: 0 <= i < |fs| ==> fs[i].severity != s
    ensures FixedCount(lines, fs, s) == 0
    decreases |fs|
  {
    if fs != [] {
      OthersCountNothing(Apply(lines, EditFor(lines, fs[0])), fs[1..], s);
    }
  }

  lemma {:induction false} UntouchedCounts(lines: seq<string>, n: nat)
    requires n <= |lines|
    ensures Edited(Untouched(lines)[..n]) == 0
  {
    if n > 0 {
      var ms := Untouched(lines);
      UntouchedCounts(lines, n - 1);
      assert ms[..n] == ms[..n - 1] + [ms[n - 1]];
      EditedConcat(ms[..n - 1], [ms[n - 1]]);
    }
  }

  lemma {:induction false} UntouchedOrigins(lines: seq<string>, n: nat)
    requires n <= |lines|
    ensures Origins(Untouched(lines)[..n]) == seq(n, i => i) && Inserted(Untouched(lines)[..n]) == 0
  {
    if n > 0 {
      var ms := Untouched(lines);
      UntouchedOrigins(lines, n - 1);
      assert ms[..n] == ms[..n - 1] + [ms[n - 1]];
      OriginsConcat(ms[..n - 1], [ms[n - 1]]);
      InsertedConcat(ms[..n - 1], [ms[n - 1]]);
      assert Origins([ms[n - 1]]) == [n - 1];
    }
  }

  /**
    The patched file, for any findings in any order: the original lines, all of them and in their order,
    some of them edited, plus one inserted parameter line for each multi-line signature fixed.
   */
  lemma PatchedFileIsTheOriginal(lines: seq<string>, fs: seq<Finding>)
    requires OneBased(fs)
    ensures var end := TraceAll(Untouched(lines), fs);
            && Texts(end) == Process(lines, fs)
            && Origins(end) == seq(|lines|, i => i)
            && Inserted(end) == Insertions(lines, fs)
            && Accounted(lines, end)
  {
    var ms := Untouched(lines);
    assert Texts(ms) == lines;
    TraceAllFollows(lines, ms, fs);
    UntouchedOrigins(lines, |lines|);
    assert ms[..|lines|] == ms;
  }
}
