/** The file that is written in the end: the fixes and the imports together. */
module PatcherWritten {
  import opened Wrappers
  import opened Patcher
  import opened PatcherSafety
  import opened PatcherImports

  /** Seeing to the imports, on marked lines. */
  function TraceImports(ms: seq<Marked>): seq<Marked> {
    var lines := Texts(ms);
    var i := FirstImport(lines, 0);
    if i == |lines| then
      var n := AfterImports(lines);
      ms[..n] + [Marked(NEW_IMPORT, None, 0)] + ms[n..]
    else ms[i := ms[i].(text := CompletedLine(lines[i]))]
  }

  /** The marked lines of the written file. */
  function Written(lines: seq<string>, fs: seq<Finding>): seq<Marked>
    requires OneBased(fs)
  {
    TraceImports(TraceAll(Untouched(lines), fs))
  }

  lemma TextsInsert(ms: seq<Marked>, n: nat, m: Marked)
    requires n <= |ms|
    ensures Texts(ms[..n] + [m] + ms[n..]) == Texts(ms)[..n] + [m.text] + Texts(ms)[n..]
  {
  }

  lemma TextsUpdate(ms: seq<Marked>, i: nat, m: Marked)
    requires i < |ms|
    ensures Texts(ms[i := m]) == Texts(ms)[i := m.text]
  {
  }

  lemma {:induction false} TraceImportsFollows(ms: seq<Marked>)
    ensures Texts(TraceImports(ms)) == WithImports(Texts(ms))
  {
    var lines := Texts(ms);
    var i := FirstImport(lines, 0);
    if i == |lines| {
      TextsInsert(ms, AfterImports(lines), Marked(NEW_IMPORT, None, 0));
    } else {
      TextsUpdate(ms, i, ms[i].(text := CompletedLine(lines[i])));
    }
  }

  lemma {:induction false} TraceImportsKeepsOrigins(ms: seq<Marked>)
    ensures Origins(TraceImports(ms)) == Origins(ms)
    ensures Inserted(TraceImports(ms)) == Inserted(ms) + (if FirstImport(Texts(ms), 0) == |ms| then 1 else 0)
  {
    var lines := Texts(ms);
    var i := FirstImport(lines, 0);
    if i == |lines| {
      InsertionKeepsOrigins(ms, AfterImports(lines), Marked(NEW_IMPORT, None, 0));
    } else {
      ChangeKeepsOrigins(ms, i, ms[i].(text := CompletedLine(lines[i])));
    }
  }

  lemma {:induction false} NoFNoImport(t: string)
    requires 'f' !in t
    ensures !IsImport(t)
  {
    AuthSpelling();
    forall i | 0 <= i < |t| ensures !ImportsAt(t, i) {
      assert i + |AUTH| <= |t| ==> t[i..i + |AUTH|][0] == t[i];
    }
  }

  lemma ParameterHasNoF()
    ensures 'f' !in PARAMETER
  {
    assert 'f' !in NEW_NAME;
    assert 'f' !in GUARDED;
  }

  /** An inserted parameter line is not taken for an import. */
  lemma {:induction false} ParameterLineIsNoImport(t: string)
    requires IsParameterLine(t)
    ensures !IsImport(t)
  {
    var indent :| ParameterAfter(t, indent);
    ParameterHasNoF();
    assert 'f' !in indent;
    assert t == indent + PARAMETER + ",";
    NoFNoImport(t);
  }

  /** The line is the one the fixes left, or its completed import. */
  ghost predicate IsCompletion(lines: seq<string>, m: Marked) {
    && m.origin.Some? && m.origin.value < |lines|
    && exists t :: IsImport(t) && Reaches(lines[m.origin.value], t, m.edits) && m.text == CompletedLine(t)
  }

  /** All lines but one are accounted for by the fixes; that one is the new import or a completed one. */
  ghost predicate AccountedButFor(lines: seq<string>, ms: seq<Marked>, k: nat) {
    && k < |ms| && (forall i :: 0 <= i < |ms| && i != k ==> LineAccounted(lines, ms[i]))
    && (ms[k] == Marked(NEW_IMPORT, None, 0) || IsCompletion(lines, ms[k]))
  }

  lemma {:induction false} TraceImportsAccounts(lines: seq<string>, ms: seq<Marked>) returns (k: nat)
    requires Accounted(lines, ms)
    ensures AccountedButFor(lines, TraceImports(ms), k)
    ensures TraceImports(ms)[k].origin.None? <==> FirstImport(Texts(ms), 0) == |ms|
  {
    var texts, end := Texts(ms), TraceImports(ms);
    var i := FirstImport(texts, 0);
    if i == |texts| {
      k := AfterImports(texts);
      forall j | 0 <= j < |end| && j != k ensures LineAccounted(lines, end[j]) {
        assert end[j] == if j < k then ms[j] else ms[j - 1];
      }
    } else {
      k := i;
      CompletionIs(lines, ms[i]);
      forall j | 0 <= j < |end| && j != k ensures LineAccounted(lines, end[j]) {
        assert end[j] == ms[j];
      }
    }
  }

  lemma {:induction false} CompletionIs(lines: seq<string>, m: Marked)
    requires LineAccounted(lines, m) && IsImport(m.text)
    ensures IsCompletion(lines, m.(text := CompletedLine(m.text)))
  {
    if m.origin.None? {
      ParameterLineIsNoImport(m.text);
    }
  }

  /**
    The written file, for any findings in any order: the original lines, all of them and in their order, some of
    them edited; one parameter line for each multi-line signature fixed; and for the imports one line added, if no
    line imports from the module, or else the first such line completed and no other touched.
   */
  lemma {:induction false} WrittenFileIsTheOriginal(lines: seq<string>, fs: seq<Finding>) returns (k: nat)
    requires OneBased(fs)
    ensures var end, fixed := Written(lines, fs), Process(lines, fs);
            && Texts(end) == WithImports(fixed)
            && Origins(end) == seq(|lines|, i => i)
            && Inserted(end) == Insertions(lines, fs) + (if FirstImport(fixed, 0) == |fixed| then 1 else 0)
            && AccountedButFor(lines, end, k) && (end[k].origin.None? <==> FirstImport(fixed, 0) == |fixed|)
  {
    var ms := TraceAll(Untouched(lines), fs);
    PatchedFileIsTheOriginal(lines, fs);
    TraceImportsFollows(ms);
    TraceImportsKeepsOrigins(ms);
    k := TraceImportsAccounts(lines, ms);
  }
}
