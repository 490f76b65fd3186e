/**
  The fixer for admin-router findings: for each finding it edits or inserts one line near the
  reported line, working from the bottom of the file to the top with the line numbers of the
  original file.
 */
module Patcher {
  import opened Text
  import PatcherImports

  const BARE := "Depends(get_current_user)"
  const GUARDED := "Depends(require_super_admin)"
  const NEW_NAME := "u: UserContext = "
  const PARAMETER := NEW_NAME + GUARDED

  datatype Severity = BareAuthentication | MissingAuthentication

  /** `line` counts from 1. */
  datatype Finding = Finding(line: nat, severity: Severity)

  /** What one fix does to the file. */
  datatype Edit = Nothing | Change(at: nat, text: string) | Insertion(at: nat, text: string)

  function Apply(lines: seq<string>, e: Edit): seq<string>
    requires Fits(lines, e)
  {
    match e
    case Nothing => lines
    case Change(i, text) => lines[i := text]
    case Insertion(i, text) => lines[..i] + [text] + lines[i..]
  }

  predicate Fits(lines: seq<string>, e: Edit) {
    match e
    case Nothing => true
    case Change(i, _) => i < |lines|
    case Insertion(i, _) => i <= |lines|
  }

  // ---- Line tests -------------------------------------------------------------------------------------

  predicate IsBare(line: string) {
    Contains(line, BARE)
  }

  /** `^\s*async def \w+\(`. */
  predicate IsDef(line: string) {
    var s := SkipBlanks(line);
    "async def " <= s &&
    (var rest := s[|"async def "|..];
     var tail := SkipWord(rest);
     |tail| < |rest| && tail != "" && tail[0] == '(')
  }

  /** `^(.*\()(.*)\)(.*):(.*)$`. */
  predicate IsSignature(line: string) {
    exists i, k, m :: 0 <= i < k < m < |line| && line[i] == '(' && line[k] == ')' && line[m] == ':'
  }

  /** The line, without trailing blanks, ends in a closing parenthesis and a colon. */
  predicate ClosesSignature(line: string) {
    var s := RStrip(line);
    s != "" && s[|s| - 1] == ':' &&
    (var t := RStrip(s[..|s| - 1]); t != "" && t[|t| - 1] == ')')
  }

  /** `re.sub(r"\)\s*:\s*$", ", <parameter>):", line.rstrip())`. */
  function AddParameter(line: string): string {
    var s := RStrip(line);
    if ClosesSignature(line) then
      var t := RStrip(s[..|s| - 1]);
      t[..|t| - 1] + ", " + PARAMETER + "):"
    else s
  }

  function NewParameterLine(defLine: string): string {
    LeadingBlanks(defLine) + "    " + PARAMETER + ","
  }

  function Balance(line: string): int {
    Count(line, '(') - Count(line, ')')
  }

  // ---- Searches ----------------------------------------------------------------------------------------

  /** First index in `from..stop` whose line satisfies the test, or `stop`. */
  function FirstIn(lines: seq<string>, test: string -> bool, from: nat, stop: nat): (k: nat)
    requires from <= stop <= |lines|
    ensures from <= k <= stop
    ensures k < stop ==> test(lines[k])
    ensures forall i :: from <= i < k ==> !test(lines[i])
    decreases stop - from
  {
    if from == stop || test(lines[from]) then from else FirstIn(lines, test, from + 1, stop)
  }

  function Window(lines: seq<string>, from: nat, length: nat): (stop: nat)
    ensures from <= |lines| ==> from <= stop <= |lines|
  {
    if from + length <= |lines| then from + length else |lines|
  }

  /** Balance of parentheses over lines `from..stop`. */
  function Depth(lines: seq<string>, from: nat, stop: nat): int
    requires from <= stop <= |lines|
    decreases stop - from
  {
    if from == stop then 0 else Depth(lines, from, stop - 1) + Balance(lines[stop - 1])
  }

  /** Line `k` closes the signature that opens on line `d`. */
  predicate ClosesAt(lines: seq<string>, d: nat, k: nat)
    requires d <= k < |lines|
  {
    Depth(lines, d, k + 1) == 0 && (k > d || ('(' in lines[d] && ')' in lines[d]))
  }

  /** First line of `k..stop` that closes the signature of `d`, or `stop`. */
  function CloseOf(lines: seq<string>, d: nat, k: nat, stop: nat): (e: nat)
    requires d <= k <= stop <= |lines|
    ensures k <= e <= stop
    ensures e < stop ==> ClosesAt(lines, d, e)
    ensures forall i :: k <= i < e ==> !ClosesAt(lines, d, i)
    decreases stop - k
  {
    if k == stop || ClosesAt(lines, d, k) then k else CloseOf(lines, d, k + 1, stop)
  }

  /** `fix_bare_auth`: the first line of the 20 from the reported one on that has the bare dependency. */
  function BareEdit(lines: seq<string>, line: nat): Edit
    requires line > 0
  {
    if line > |lines| then Nothing
    else
      var stop := Window(lines, line - 1, 20);
      var j := FirstIn(lines, IsBare, line - 1, stop);
      if j < stop then Change(j, ReplaceFirst(lines[j], BARE, GUARDED)) else Nothing
  }

  /** The fix for a definition on line `d`: a line before the one that closes its signature, or an edit of a one-line signature. */
  function SignatureEdit(lines: seq<string>, d: nat): Edit
    requires d < |lines|
  {
    var limit := Window(lines, d, 25);
    var e := CloseOf(lines, d, d, limit);
    if e == limit then Nothing
    else if e > d then Insertion(e, NewParameterLine(lines[d]))
    else if IsSignature(lines[d]) then Change(d, AddParameter(lines[d]))
    else Nothing
  }

  /** `fix_missing_auth`: find the handler within 10 lines and the end of its signature within 25 more. */
  function MissingEdit(lines: seq<string>, line: nat): Edit
    requires line > 0
  {
    if line > |lines| then Nothing
    else
      var stop := Window(lines, line - 1, 10);
      var d := FirstIn(lines, IsDef, line - 1, stop);
      if d == stop then Nothing else SignatureEdit(lines, d)
  }

  function EditFor(lines: seq<string>, f: Finding): (e: Edit)
    requires f.line > 0
    ensures Fits(lines, e)
    ensures e.Change? || e.Insertion? ==> f.line - 1 <= e.at
    ensures e.Insertion? ==> f.severity.MissingAuthentication? && f.line - 1 < e.at < |lines|
  {
    match f.severity
    case BareAuthentication => BareEdit(lines, f.line)
    case MissingAuthentication => MissingEdit(lines, f.line)
  }

  // ---- The whole file -----------------------------------------------------------------------------------

  ghost predicate OneBased(fs: seq<Finding>) {
    forall i :: 0 <= i < |fs| ==> fs[i].line > 0
  }

  /** The fixes in the given order, each on the file the ones before it left. */
  function Process(lines: seq<string>, fs: seq<Finding>): seq<string>
    requires OneBased(fs)
    decreases |fs|
  {
    if fs == [] then lines else Process(Apply(lines, EditFor(lines, fs[0])), fs[1..])
  }

  /** How many findings of a severity find something to fix. */
  function FixedCount(lines: seq<string>, fs: seq<Finding>, severity: Severity): nat
    requires OneBased(fs)
    decreases |fs|
  {
    if fs == [] then 0
    else
      var e := EditFor(lines, fs[0]);
      (if fs[0].severity == severity && e != Nothing then 1 else 0) + FixedCount(Apply(lines, e), fs[1..], severity)
  }

  ghost predicate Descending(fs: seq<Finding>) {
    forall i, k :: 0 <= i < k < |fs| ==> fs[i].line >= fs[k].line
  }

  function Insert(f: Finding, fs: seq<Finding>): (r: seq<Finding>)
    requires Descending(fs)
    ensures Descending(r) && multiset(r) == multiset(fs) + multiset{f}
  {
    if fs == [] then [f]
    else if f.line >= fs[0].line then [f] + fs
    else
      assert fs == [fs[0]] + fs[1..];
      var rest := Insert(f, fs[1..]);
      HeadIsLowest(fs, f, rest);
      [fs[0]] + rest
  }

  lemma HeadIsLowest(fs: seq<Finding>, f: Finding, rest: seq<Finding>)
    requires fs != [] && Descending(fs) && f.line <= fs[0].line && multiset(rest) == multiset(fs[1..]) + multiset{f}
    ensures forall i :: 0 <= i < |rest| ==> rest[i].line <= fs[0].line
  {
    forall i | 0 <= i < |rest| ensures rest[i].line <= fs[0].line {
      assert rest[i] in multiset(rest);
      assert rest[i] in fs[1..] || rest[i] == f;
    }
  }

  /** `sorted(findings, key=lambda x: -x["line"])`. */
  function BottomUp(fs: seq<Finding>): (r: seq<Finding>)
    ensures Descending(r) && multiset(r) == multiset(fs)
  {
    if fs == [] then []
    else
      assert fs == [fs[0]] + fs[1..];
      Insert(fs[0], BottomUp(fs[1..]))
  }

  /** The file being patched. */
  class File {
    var lines: seq<string>

    method FixBare(line: nat) returns (fixed: bool)
      requires line > 0
      modifies this
      ensures var e := BareEdit(old(lines), line);
              fixed == (e != Nothing) && Fits(old(lines), e) && lines == Apply(old(lines), e)
    {
      var idx := line - 1;
      var offset := 0;
      fixed := false;
      while offset < 20
        invariant 0 <= offset <= 20 && lines == old(lines) && !fixed
        invariant idx <= |lines| ==> idx + offset <= |lines|
        invariant forall i :: idx <= i < idx + offset && i < |lines| ==> !IsBare(lines[i])
      {
        var j := idx + offset;
        if j >= |lines| {
          break;
        }
        if IsBare(lines[j]) {
          lines := lines[j := ReplaceFirst(lines[j], BARE, GUARDED)];
          fixed := true;
          return;
        }
        offset := offset + 1;
      }
    }

    /** The definition line, found within 10 lines of the reported one; the length if there is none. */
    method FindDef(idx: nat) returns (d: nat)
      requires idx <= |lines|
      ensures var stop := Window(lines, idx, 10);
              d == if FirstIn(lines, IsDef, idx, stop) == stop then |lines| else FirstIn(lines, IsDef, idx, stop)
    {
      var offset := 0;
      while offset < 10
        invariant 0 <= offset <= 10 && idx + offset <= |lines|
        invariant forall i :: idx <= i < idx + offset ==> !IsDef(lines[i])
      {
        var j := idx + offset;
        if j >= |lines| {
          break;
        }
        if IsDef(lines[j]) {
          return j;
        }
        offset := offset + 1;
      }
      d := |lines|;
    }

    /** The line on which the parentheses opened on line `d` balance, within 25 lines; the length if none. */
    method FindClose(d: nat) returns (e: nat)
      requires d < |lines|
      ensures var limit := Window(lines, d, 25);
              e == if CloseOf(lines, d, d, limit) == limit then |lines| else CloseOf(lines, d, d, limit)
    {
      var depth := 0;
      var j := d;
      while j < d + 25 && j < |lines|
        invariant d <= j <= Window(lines, d, 25)
        invariant depth == Depth(lines, d, j)
        invariant forall i :: d <= i < j ==> !ClosesAt(lines, d, i)
      {
        depth := depth + Balance(lines[j]);
        assert depth == Depth(lines, d, j + 1);
        if depth == 0 && j > d {
          assert ClosesAt(lines, d, j);
          return j;
        }
        if depth == 0 && '(' in lines[j] && ')' in lines[j] && j == d {
          assert ClosesAt(lines, d, j);
          return j;
        }
        j := j + 1;
      }
      e := |lines|;
    }

    method FixMissing(line: nat) returns (fixed: bool)
      requires line > 0
      modifies this
      ensures var e := MissingEdit(old(lines), line);
              fixed == (e != Nothing) && Fits(old(lines), e) && lines == Apply(old(lines), e)
    {
      if line > |lines| {
        return false;
      }
      var d := FindDef(line - 1);
      if d == |lines| {
        return false;
      }
      var e := FindClose(d);
      if e == |lines| {
        return false;
      }
      if e == d {
        if !IsSignature(lines[d]) {
          return false;
        }
        lines := lines[d := AddParameter(lines[d])];
      } else {
        lines := lines[..e] + [NewParameterLine(lines[d])] + lines[e..];
      }
      fixed := true;
    }

    /**
      `fix_file` on the lines of the file: sort the findings by descending line, fix them one by one, and see
      to the imports.
     */
    method FixFile(findings: seq<Finding>) returns (bare: nat, missing: nat)
      requires OneBased(findings)
      modifies this
      ensures OneBased(BottomUp(findings))
      ensures lines == PatcherImports.WithImports(Process(old(lines), BottomUp(findings)))
      ensures bare == FixedCount(old(lines), BottomUp(findings), BareAuthentication)
      ensures missing == FixedCount(old(lines), BottomUp(findings), MissingAuthentication)
    {
      var order := BottomUp(findings);
      SameFindings(findings);
      bare, missing := 0, 0;
      var i := 0;
      while i < |order|
        invariant 0 <= i <= |order|
        invariant FixedCount(old(lines), order, BareAuthentication)
                  == bare + FixedCount(lines, order[i..], BareAuthentication)
        invariant FixedCount(old(lines), order, MissingAuthentication)
                  == missing + FixedCount(lines, order[i..], MissingAuthentication)
        invariant Process(old(lines), order) == Process(lines, order[i..])
      {
        var f := order[i];
        assert order[i..][0] == f && order[i..][1..] == order[i + 1..];
        if f.severity == BareAuthentication {
          var fixed := FixBare(f.line);
          if fixed {
            bare := bare + 1;
          }
        } else {
          var fixed := FixMissing(f.line);
          if fixed {
            missing := missing + 1;
          }
        }
        i := i + 1;
      }
      lines := PatcherImports.EnsureImports(lines);
    }
  }

  lemma SameFindings(fs: seq<Finding>)
    ensures |BottomUp(fs)| == |fs|
    ensures OneBased(fs) ==> OneBased(BottomUp(fs))
  {
    var r := BottomUp(fs);
    assert |multiset(r)| == |multiset(fs)|;
    forall i | 0 <= i < |r| ensures r[i] in fs {
      assert r[i] in multiset(r);
    }
  }
}
