/** What ensuring the imports writes, in terms of the text of the lines. */
module PatcherImportLines {
  import opened Text
  import opened PatcherImports

  /** The line imports from the auth module: the pattern stands behind `pre`, and `names`, which is not empty, behind it. */
  ghost predicate ImportsBy(line: string, pre: string, names: string) {
    names != "" && line == pre + ("from app.dependencies.auth import " + names)
  }

  /** And nowhere before that. */
  ghost predicate FirstBy(line: string, pre: string, names: string) {
    ImportsBy(line, pre, names) && forall p, n :: ImportsBy(line, p, n) ==> |pre| <= |p|
  }

  ghost predicate Mentions(line: string) {
    exists pre, names :: ImportsBy(line, pre, names)
  }

  predicate StartsImport(line: string) {
    (|line| >= 5 && line[..5] == "from ") || (|line| >= 7 && line[..7] == "import ")
  }

  lemma OccursBy(line: string, pre: string, names: string)
    requires ImportsBy(line, pre, names)
    ensures ImportsAt(line, |pre|)
  {
    assert line[|pre|..|pre| + |AUTH|] == AUTH;
  }

  lemma ImportsSplit(line: string, k: nat)
    requires ImportsAt(line, k)
    ensures ImportsBy(line, line[..k], line[k + |AUTH|..])
  {
    assert line == line[..k] + (line[k..k + |AUTH|] + line[k + |AUTH|..]);
  }

  /** The search for the pattern finds a line exactly when it mentions the module that way. */
  lemma {:induction false} IsImportIff(line: string)
    ensures IsImport(line) <==> Mentions(line)
  {
    if IsImport(line) {
      ImportsSplit(line, ImportPos(line, 0));
    }
    forall pre, names | ImportsBy(line, pre, names) ensures IsImport(line) {
      OccursBy(line, pre, names);
    }
  }

  lemma {:induction false} FirstByIs(line: string, pre: string, names: string)
    requires FirstBy(line, pre, names)
    ensures IsImport(line) && ImportPos(line, 0) == |pre| && line[..|pre|] == pre
    ensures Matched(line) == "from app.dependencies.auth import " + names
  {
    OccursBy(line, pre, names);
    var k := ImportPos(line, 0);
    ImportsSplit(line, k);
    assert |pre| <= |line[..k]|;
  }

  /** The text from the pattern on, completed: each name it lacks is put behind what is left without trailing blanks. */
  function CompletedText(text: string): string {
    var guard, context := Contains(text, "require_super_admin"), Contains(text, "UserContext");
    if guard && context then text
    else if guard then RStrip(text) + ", UserContext"
    else if context then RStrip(text) + ", require_super_admin"
    else RStrip(text) + (", " + "require_super_admin" + (", " + "UserContext"))
  }

  lemma CompletedIs(text: string)
    ensures Completed(text) == CompletedText(text)
  {
    assert ", " + CONTEXT == ", UserContext" && ", " + GUARD == ", require_super_admin";
    assert "" + (", " + CONTEXT) == ", " + CONTEXT && (", " + GUARD) + "" == ", " + GUARD;
  }

  /** With an import of the module: the first line that has one is completed, from the pattern to its end; nothing else changes. */
  lemma {:induction false} FirstMentionIsCompleted(lines: seq<string>, i: nat, pre: string, names: string)
    requires i < |lines| && FirstBy(lines[i], pre, names) && forall m :: 0 <= m < i ==> !Mentions(lines[m])
    ensures WithImports(lines) == lines[i := pre + CompletedText("from app.dependencies.auth import " + names)]
  {
    FirstByIs(lines[i], pre, names);
    forall m | 0 <= m < i ensures !IsImport(lines[m]) {
      IsImportIff(lines[m]);
    }
    FirstIs(lines, i);
    CompletedIs(Matched(lines[i]));
  }

  /** Without one: the import of both names is put right behind the last line that starts an import, or on top. */
  lemma {:induction false} NewImportIsAdded(lines: seq<string>) returns (n: nat)
    requires forall m :: 0 <= m < |lines| ==> !Mentions(lines[m])
    ensures n <= |lines| && (n > 0 ==> StartsImport(lines[n - 1])) && forall m :: n <= m < |lines| ==> !StartsImport(lines[m])
    ensures WithImports(lines)
            == lines[..n] + ["from app.dependencies.auth import " + ("require_super_admin" + ", " + "UserContext")] + lines[n..]
  {
    forall m | 0 <= m < |lines| ensures !IsImport(lines[m]) {
      IsImportIff(lines[m]);
    }
    n := AfterImports(lines);
    assert forall l :: IsTopLevel(l) <==> StartsImport(l);
  }
}
