/** The last step on a patched file: both names the fixes use are to be imported. */
module PatcherImports {
  import opened Text
  import opened CommaLists

  const AUTH := "from app.dependencies.auth import "
  const GUARD := "require_super_admin"
  const CONTEXT := "UserContext"
  const NEW_IMPORT := AUTH + (GUARD + ", " + CONTEXT)

  /** The import pattern matches at `k`: the prefix and at least one more character. */
  predicate ImportsAt(line: string, k: nat) {
    OccursAt(line, AUTH, k) && k + |AUTH| < |line|
  }

  /** Where the pattern first matches from `i` on, or the length if it does not. */
  function ImportPos(line: string, i: nat): (k: nat)
    requires i <= |line|
    ensures i <= k <= |line|
    ensures k < |line| ==> ImportsAt(line, k)
    ensures forall m :: i <= m < k ==> !ImportsAt(line, m)
    decreases |line| - i
  {
    if i == |line| || ImportsAt(line, i) then i else ImportPos(line, i + 1)
  }

  predicate IsImport(line: string) {
    ImportPos(line, 0) < |line|
  }

  /** The matched text: from the pattern to the end of the line. */
  function Matched(line: string): (m: string)
    requires IsImport(line)
    ensures |AUTH| < |m| && m[..|AUTH|] == AUTH
  {
    line[ImportPos(line, 0)..]
  }

  /** The first import line, or the length. */
  function FirstImport(lines: seq<string>, i: nat): (k: nat)
    requires i <= |lines|
    ensures i <= k <= |lines|
    ensures k < |lines| ==> IsImport(lines[k])
    ensures forall m :: i <= m < k ==> !IsImport(lines[m])
    decreases |lines| - i
  {
    if i == |lines| || IsImport(lines[i]) then i else FirstImport(lines, i + 1)
  }

  predicate IsTopLevel(line: string) {
    "from " <= line || "import " <= line
  }

  /** The place after the last line that starts an import statement; 0 if there is none. */
  function AfterImports(lines: seq<string>): (n: nat)
    ensures n <= |lines|
    ensures n > 0 ==> IsTopLevel(lines[n - 1])
    ensures forall i :: n <= i < |lines| ==> !IsTopLevel(lines[i])
  {
    if lines == [] then 0
    else if IsTopLevel(lines[|lines| - 1]) then |lines|
    else AfterImports(lines[..|lines| - 1])
  }

  predicate NamesBoth(text: string) {
    Contains(text, GUARD) && Contains(text, CONTEXT)
  }

  /** What is added to matched text that lacks a name. */
  function Missing(matched: string): string {
    (if Contains(matched, GUARD) then "" else ", " + GUARD) + (if Contains(matched, CONTEXT) then "" else ", " + CONTEXT)
  }

  function Completed(matched: string): string {
    if NamesBoth(matched) then matched else RStrip(matched) + Missing(matched)
  }

  /** `ensure_imports`, on the lines of the text. */
  function WithImports(lines: seq<string>): seq<string> {
    var i := FirstImport(lines, 0);
    if i == |lines| then
      var n := AfterImports(lines);
      lines[..n] + [NEW_IMPORT] + lines[n..]
    else lines[i := lines[i][..ImportPos(lines[i], 0)] + Completed(Matched(lines[i]))]
  }

  method EnsureImports(lines: seq<string>) returns (r: seq<string>)
    ensures r == WithImports(lines)
  {
    var i := 0;
    while i < |lines| && !IsImport(lines[i])
      invariant 0 <= i <= |lines| && forall m :: 0 <= m < i ==> !IsImport(lines[m])
    {
      i := i + 1;
    }
    if i == |lines| {
      var insertAt := 0;
      for k := 0 to |lines|
        invariant insertAt == AfterImports(lines[..k])
      {
        assert lines[..k + 1][..k] == lines[..k];
        if IsTopLevel(lines[k]) {
          insertAt := k + 1;
        }
      }
      assert lines[..|lines|] == lines;
      return lines[..insertAt] + [NEW_IMPORT] + lines[insertAt..];
    }
    var k := ImportPos(lines[i], 0);
    var matched := lines[i][k..];
    if NamesBoth(matched) {
      assert lines[i] == lines[i][..k] + matched;
      return lines;
    }
    r := lines[i := lines[i][..k] + (RStrip(matched) + Missing(matched))];
  }

  // ---- Both names are there ------------------------------------------------------------------------------

  lemma OccursInside(x: string, pattern: string, y: string)
    ensures Contains(x + pattern + y, pattern)
  {
    assert OccursAt(x + pattern + y, pattern, |x|);
  }

  lemma ContainedInFront(x: string, y: string, pattern: string)
    requires Contains(x, pattern)
    ensures Contains(x + y, pattern)
  {
    var i :| 0 <= i <= |x| && OccursAt(x, pattern, i);
    assert (x + y)[i..i + |pattern|] == x[i..i + |pattern|];
    assert OccursAt(x + y, pattern, i);
  }

  /** Stripping keeps everything up to a character that is not blank. */
  lemma {:induction false} StripKeepsUpTo(s: string, i: nat)
    requires i < |s| && !IsBlank(s[i])
    ensures i < |RStrip(s)| && RStrip(s) <= s
  {
    RStripSplits(s);
    var n := |RStrip(s)|;
    assert forall k :: n <= k < |s| ==> s[k] == s[n..][k - n];
  }

  /** It loses no word. */
  lemma ContainedAfterStrip(x: string, word: string)
    requires word != "" && (forall i :: 0 <= i < |word| ==> !IsBlank(word[i])) && Contains(x, word)
    ensures Contains(RStrip(x), word)
  {
    var i :| 0 <= i <= |x| && OccursAt(x, word, i);
    var last := i + |word| - 1;
    assert x[i..i + |word|][|word| - 1] == x[last];
    StripKeepsUpTo(x, last);
    assert RStrip(x)[i..i + |word|] == x[i..i + |word|];
    assert OccursAt(RStrip(x), word, i);
  }

  lemma NamesHaveNoBlanks()
    ensures GUARD != "" && forall i :: 0 <= i < |GUARD| ==> !IsBlank(GUARD[i])
    ensures CONTEXT != "" && forall i :: 0 <= i < |CONTEXT| ==> !IsBlank(CONTEXT[i])
  {
  }

  lemma {:induction false} CompletedNamesBoth(matched: string)
    ensures NamesBoth(Completed(matched))
  {
    if !NamesBoth(matched) {
      var r := RStrip(matched);
      NamesHaveNoBlanks();
      if Contains(matched, GUARD) {
        ContainedAfterStrip(matched, GUARD);
        ContainedInFront(r, Missing(matched), GUARD);
        AddsWord(r, "", CONTEXT, "");
      } else if Contains(matched, CONTEXT) {
        ContainedAfterStrip(matched, CONTEXT);
        ContainedInFront(r, Missing(matched), CONTEXT);
        AddsWord(r, "", GUARD, "");
      } else {
        AddsWord(r, "", GUARD, ", " + CONTEXT);
        AddsWord(r, ", " + GUARD, CONTEXT, "");
      }
    }
  }

  lemma {:induction false} AddsWord(r: string, x: string, word: string, y: string)
    ensures Contains(r + (x + (", " + word) + y), word) && Contains(r + (x + (", " + word + y)), word)
    ensures y == "" ==> Contains(r + (x + (", " + word)), word)
    ensures x == "" ==> Contains(r + ((", " + word) + y), word)
  {
    OccursInside(r + x + ", ", word, y);
    assert r + (x + (", " + word) + y) == r + x + ", " + word + y;
    assert r + (x + (", " + word + y)) == r + x + ", " + word + y;
    assert y == "" ==> r + (x + (", " + word)) == r + x + ", " + word + y;
    assert x == "" ==> r + ((", " + word) + y) == r + x + ", " + word + y;
  }

  // ---- And still in an import line ---------------------------------------------------------------------------

  /** The import statement names something. */
  predicate NamesSomething(line: string)
    requires IsImport(line)
  {
    !AllBlank(Matched(line)[|AUTH|..])
  }

  /** Lines that agree up to the end of the pattern and have more after it match at the same place. */
  lemma SamePlace(line: string, other: string, k: nat)
    requires IsImport(line) && k == ImportPos(line, 0)
    requires k + |AUTH| < |other| && other[..k + |AUTH|] == line[..k + |AUTH|]
    ensures IsImport(other) && ImportPos(other, 0) == k
  {
    assert other[k..k + |AUTH|] == other[..k + |AUTH|][k..] == line[..k + |AUTH|][k..] == line[k..k + |AUTH|];
    assert ImportsAt(other, k);
    forall m | 0 <= m < k ensures !ImportsAt(other, m) {
      assert other[m..m + |AUTH|] == other[..k + |AUTH|][m..m + |AUTH|];
      assert line[m..m + |AUTH|] == line[..k + |AUTH|][m..m + |AUTH|];
      assert !ImportsAt(line, m);
    }
  }

  function CompletedLine(line: string): string
    requires IsImport(line)
  {
    line[..ImportPos(line, 0)] + Completed(Matched(line))
  }

  lemma {:induction false} StripKeepsPrefix(m: string, prefix: string)
    requires prefix <= m && !AllBlank(m[|prefix|..])
    ensures |prefix| < |RStrip(m)| && prefix <= RStrip(m)
  {
    var names := m[|prefix|..];
    var i :| 0 <= i < |names| && !IsBlank(names[i]);
    assert m[|prefix| + i] == names[i];
    StripKeepsUpTo(m, |prefix| + i);
  }

  lemma {:induction false} CompletedStarts(m: string, prefix: string)
    requires prefix <= m && |prefix| < |m| && !AllBlank(m[|prefix|..])
    ensures |prefix| < |Completed(m)| && prefix <= Completed(m)
  {
    StripKeepsPrefix(m, prefix);
  }

  lemma {:induction false} SameUpTo(line: string, k: nat, prefix: string, c: string)
    requires k <= |line| && prefix <= line[k..] && prefix <= c
    ensures (line[..k] + c)[..k + |prefix|] == line[..k + |prefix|]
  {
    assert line[..k + |prefix|] == line[..k] + line[k..][..|prefix|];
    assert (line[..k] + c)[..k + |prefix|] == line[..k] + c[..|prefix|];
  }

  /** A line whose import names something still is an import, at the same place, once it is completed. */
  lemma {:induction false} CompletedLineImports(line: string)
    requires IsImport(line) && NamesSomething(line)
    ensures var done := CompletedLine(line);
            IsImport(done) && ImportPos(done, 0) == ImportPos(line, 0) && Matched(done) == Completed(Matched(line))
  {
    var k, m := ImportPos(line, 0), Matched(line);
    CompletedStarts(m, AUTH);
    SameUpTo(line, k, AUTH, Completed(m));
    SamePlace(line, CompletedLine(line), k);
  }

  lemma NotContained(s: string, pattern: string, j: nat)
    requires j < |pattern| && pattern[j] !in s
    ensures !Contains(s, pattern)
  {
    forall i | 0 <= i <= |s| ensures !OccursAt(s, pattern, i) {
      if i + |pattern| <= |s| {
        assert s[i..i + |pattern|][j] == s[i + j];
      }
    }
  }

  lemma AuthSpelling()
    ensures '_' !in AUTH && 'U' !in AUTH
    ensures |AUTH| > 1 && AUTH[0] == 'f' && forall i :: 1 <= i < |AUTH| ==> AUTH[i] != 'f'
    ensures AUTH[|AUTH| - 1] == ' ' && !IsBlank(AUTH[|AUTH| - 2])
  {
  }

  lemma NameSpelling()
    ensures |GUARD| > 7 && GUARD[7] == '_' && CONTEXT != "" && CONTEXT[0] == 'U'
    ensures 'f' !in GUARD && 'f' !in CONTEXT
  {
  }

  /** An import that names nothing: what it is completed to. */
  lemma {:induction false} BlankCompletion(m: string)
    requires AUTH <= m && AllBlank(m[|AUTH|..])
    ensures Completed(m) == AUTH[..|AUTH| - 1] + (", " + GUARD + (", " + CONTEXT))
  {
    AuthSpelling();
    NameSpelling();
    var blanks := m[|AUTH|..];
    assert m == AUTH + blanks;
    assert '_' !in blanks && 'U' !in blanks;
    NotContained(m, GUARD, 7);
    NotContained(m, CONTEXT, 0);
    StripsToWord(AUTH[..|AUTH| - 1], m);
  }

  lemma {:induction false} StripsToWord(word: string, s: string)
    requires word <= s && word != "" && !IsBlank(word[|word| - 1]) && AllBlank(s[|word|..])
    ensures RStrip(s) == word
    decreases |s|
  {
    if |s| > |word| {
      assert s[|word|..][|s| - 1 - |word|] == s[|s| - 1];
      var t := s[..|s| - 1];
      assert t[|word|..] == s[|word|..][..|s| - 1 - |word|];
      StripsToWord(word, t);
    } else {
      assert s == word;
    }
  }

  /** The blank that ends the pattern is stripped with the rest, and the line is an import no more. */
  lemma {:induction false} BlankImportIsLost(line: string)
    requires IsImport(line) && !NamesSomething(line)
    ensures !IsImport(CompletedLine(line))
  {
    var k, m := ImportPos(line, 0), Matched(line);
    var stem, names := AUTH[..|AUTH| - 1], ", " + GUARD + (", " + CONTEXT);
    BlankCompletion(m);
    AuthSpelling();
    NameSpelling();
    var done := CompletedLine(line);
    assert done == line[..k] + (stem + names);
    NoImportBehind(line, k, stem, names);
  }

  /** So a completed line is an import exactly if it named something before. */
  lemma StillImportsIff(line: string)
    requires IsImport(line)
    ensures IsImport(CompletedLine(line)) <==> NamesSomething(line)
  {
    if NamesSomething(line) {
      CompletedLineImports(line);
    } else {
      BlankImportIsLost(line);
    }
  }

  lemma {:induction false} NoImportBehind(line: string, k: nat, stem: string, names: string)
    requires IsImport(line) && k == ImportPos(line, 0) && stem == AUTH[..|AUTH| - 1]
    requires names != "" && names[0] != AUTH[|AUTH| - 1]
    requires |AUTH| > 1 && (forall i :: 1 <= i < |AUTH| ==> AUTH[i] != AUTH[0]) && AUTH[0] !in names
    ensures !IsImport(line[..k] + (stem + names))
  {
    var done := line[..k] + (stem + names);
    forall i | 0 <= i < |done| ensures !ImportsAt(done, i) {
      if i < k {
        NotBefore(line, k, stem, names, i);
      } else if i == k {
        assert done[k + |stem|] == names[0];
        assert i + |AUTH| <= |done| ==> done[i..i + |AUTH|][|stem|] == done[k + |stem|];
      } else {
        assert done[i] == (stem + names)[i - k];
        assert i - k < |stem| ==> stem[i - k] == AUTH[i - k];
        assert i + |AUTH| <= |done| ==> done[i..i + |AUTH|][0] == done[i];
      }
    }
  }

  lemma {:induction false} NotBefore(line: string, k: nat, stem: string, names: string, i: nat)
    requires IsImport(line) && k == ImportPos(line, 0) && stem == AUTH[..|AUTH| - 1] && i < k && AUTH != ""
    ensures !ImportsAt(line[..k] + (stem + names), i)
  {
    var done := line[..k] + (stem + names);
    var n := k + |stem|;
    assert line[k..k + |AUTH|] == AUTH;
    assert line[..n] == line[..k] + line[k..k + |AUTH|][..|stem|];
    assert done[..n] == line[..n];
    assert done[i..i + |AUTH|] == done[..n][i..i + |AUTH|] == line[..n][i..i + |AUTH|] == line[i..i + |AUTH|];
    assert !ImportsAt(line, i);
  }

  /** The first import line of the file, or the new line if there was none, mentions both names afterwards. */
  lemma BothAreMentioned(lines: seq<string>)
    requires var i := FirstImport(lines, 0); i < |lines| ==> NamesSomething(lines[i])
    ensures var r := WithImports(lines);
            var k := FirstImport(r, 0);
            k < |r| && NamesBoth(Matched(r[k])) && (FirstImport(lines, 0) < |lines| ==> k == FirstImport(lines, 0))
  {
    var i, r := FirstImport(lines, 0), WithImports(lines);
    if i == |lines| {
      NewImportNamesBoth();
      var n := AfterImports(lines);
      assert r[n] == NEW_IMPORT;
      assert forall m :: 0 <= m < n ==> r[m] == lines[m];
      FirstIs(r, n);
    } else {
      CompletedLineImports(lines[i]);
      CompletedNamesBoth(Matched(lines[i]));
      assert forall m :: 0 <= m < i ==> r[m] == lines[m];
      FirstIs(r, i);
    }
  }

  lemma FirstIs(lines: seq<string>, i: nat)
    requires i < |lines| && IsImport(lines[i]) && forall m :: 0 <= m < i ==> !IsImport(lines[m])
    ensures FirstImport(lines, 0) == i
  {
  }

  lemma NewImportNamesBoth()
    ensures IsImport(NEW_IMPORT) && NamesBoth(Matched(NEW_IMPORT))
  {
    assert NEW_IMPORT[..|AUTH|] == AUTH;
    assert ImportsAt(NEW_IMPORT, 0);
    assert Matched(NEW_IMPORT) == NEW_IMPORT;
    assert NEW_IMPORT == AUTH + GUARD + (", " + CONTEXT);
    OccursInside(AUTH, GUARD, ", " + CONTEXT);
    assert NEW_IMPORT == (AUTH + GUARD + ", ") + CONTEXT + "";
    OccursInside(AUTH + GUARD + ", ", CONTEXT, "");
  }

  /** A file is left as it is exactly when its first import line mentions both names. */
  lemma {:induction false} StaysIff(lines: seq<string>)
    ensures WithImports(lines) == lines <==>
            var k := FirstImport(lines, 0); k < |lines| && NamesBoth(Matched(lines[k]))
  {
    var k := FirstImport(lines, 0);
    if k < |lines| {
      var pos := ImportPos(lines[k], 0);
      assert lines[k] == lines[k][..pos] + lines[k][pos..];
      assert lines[k := lines[k]] == lines;
      var m, c := Matched(lines[k]), Completed(Matched(lines[k]));
      CompletedNamesBoth(m);
      assert (lines[k][..pos] + c)[pos..] == c;
      assert WithImports(lines)[k] == lines[k][..pos] + c;
    } else {
      assert |WithImports(lines)| == |lines| + 1;
    }
  }

  /**
    Ensuring the imports twice is ensuring them once, exactly when there was no import line, the first one named
    something, or the one after it mentions both: a lost import line makes room for the next, or for a new one.
   */
  lemma {:induction false} IdempotentIff(lines: seq<string>)
    ensures var i := FirstImport(lines, 0);
            WithImports(WithImports(lines)) == WithImports(lines) <==>
            || i == |lines| || NamesSomething(lines[i])
            || (var j := FirstImport(lines, i + 1); j < |lines| && NamesBoth(Matched(lines[j])))
  {
    var i, r := FirstImport(lines, 0), WithImports(lines);
    StaysIff(r);
    if i == |lines| || NamesSomething(lines[i]) {
      BothAreMentioned(lines);
    } else {
      BlankImportIsLost(lines[i]);
      AfterLostImport(lines, i, CompletedLine(lines[i]));
    }
  }

  lemma {:induction false} AfterLostImport(lines: seq<string>, i: nat, lost: string)
    requires i < |lines| && i == FirstImport(lines, 0) && !IsImport(lost)
    ensures var r, j := lines[i := lost], FirstImport(lines, i + 1);
            FirstImport(r, 0) == j && (j < |lines| ==> r[j] == lines[j])
  {
    NextImport(lines, lines[i := lost], i);
  }

  lemma {:induction false} NextImport(lines: seq<string>, r: seq<string>, i: nat)
    requires i < |lines| == |r| && !IsImport(r[i]) && (forall m :: 0 <= m < |lines| && m != i ==> r[m] == lines[m])
    requires forall m :: 0 <= m < i ==> !IsImport(lines[m])
    ensures FirstImport(r, 0) == FirstImport(lines, i + 1)
  {
    var j, k := FirstImport(lines, i + 1), FirstImport(r, 0);
    assert k < |r| ==> IsImport(r[k]);
    assert j < |lines| ==> IsImport(r[j]);
    if k < |r| {
      assert k > i;
      assert IsImport(lines[k]);
    }
  }

  // ---- Whether the completed list of names is one -------------------------------------------------------------

  /** What names, the word `as` and the commas between them are written with. */
  predicate InNameList(c: char) {
    IsWord(c) || IsBlank(c) || c == ','
  }

  /** Names separated by commas, without brackets, comments, a star or a trailing comma. */
  predicate IsNameList(names: string) {
    && (forall i :: 0 <= i < |names| ==> InNameList(names[i]))
    && forall i :: 0 <= i < |Items(names)| ==> !AllBlank(Items(names)[i])
  }

  lemma {:induction false} StrippedItems(names: string)
    requires forall i :: 0 <= i < |names| ==> Turn(names[i]) == 0
    ensures var r := RStrip(names);
            var blanks := names[|r|..];
            Items(names) == FrontOf(Items(r)) + [LastOf(Items(r)) + blanks] && AllBlank(blanks)
  {
    var r := RStrip(names);
    RStripSplits(names);
    var blanks := names[|r|..];
    assert names == r + blanks;
    DepthFlat(r, 0);
    BlanksAreFlat(blanks, 0);
    PiecesConcat(r, blanks, 0, "");
    PiecesOfWord(blanks, "", 0, LastOf(Items(r)));
    assert blanks + "" == blanks;
  }

  lemma {:induction false} StrippedIsNameList(names: string)
    ensures IsNameList(RStrip(names)) <==> IsNameList(names)
  {
    var r := RStrip(names);
    RStripSplits(names);
    assert names == r + names[|r|..];
    assert (forall i :: 0 <= i < |r| ==> InNameList(r[i])) <==>
           (forall i :: 0 <= i < |names| ==> InNameList(names[i]));
    if forall i :: 0 <= i < |names| ==> InNameList(names[i]) {
      StrippedItems(names);
      SameBlankItems(Items(r), names[|r|..], Items(names));
    }
  }

  lemma SameBlankItems(ps: seq<string>, blanks: string, qs: seq<string>)
    requires ps != [] && AllBlank(blanks) && qs == FrontOf(ps) + [LastOf(ps) + blanks]
    ensures (forall i :: 0 <= i < |ps| ==> !AllBlank(ps[i])) <==> (forall i :: 0 <= i < |qs| ==> !AllBlank(qs[i]))
  {
    var n := |ps| - 1;
    assert forall i :: 0 <= i < n ==> qs[i] == ps[i];
    assert qs[n] == ps[n] + blanks;
    BlankBehind(ps[n], blanks);
    assert |qs| == |ps|;
  }

  lemma BlankBehind(a: string, b: string)
    requires AllBlank(b)
    ensures AllBlank(a + b) <==> AllBlank(a)
  {
    if AllBlank(a + b) {
      forall i | 0 <= i < |a| ensures IsBlank(a[i]) {
        assert (a + b)[i] == a[i];
      }
    }
  }

  /** Adding a name to a list of names. */
  lemma {:induction false} OneMoreName(names: string, word: string)
    requires IsName(word)
    ensures IsNameList(names + ", " + word) <==> IsNameList(names)
  {
    var more := ", " + word;
    assert names + ", " + word == names + more;
    assert forall i :: 0 <= i < |word| ==> InNameList(word[i]) && word[i] != ',' && Turn(word[i]) == 0;
    assert forall i :: 0 <= i < |more| ==> InNameList(more[i]);
    PlainBoth(names, more);
    if forall i :: 0 <= i < |names| ==> InNameList(names[i]) {
      MoreItems(names, word);
      var ps := Items(names);
      assert (" " + word)[1] == word[0];
      assert forall i :: 0 <= i < |ps| ==> (ps + [" " + word])[i] == ps[i];
    }
  }

  lemma PlainBoth(a: string, b: string)
    requires forall i :: 0 <= i < |b| ==> InNameList(b[i])
    ensures (forall i :: 0 <= i < |a + b| ==> InNameList((a + b)[i])) <==>
            (forall i :: 0 <= i < |a| ==> InNameList(a[i]))
  {
    assert forall i :: 0 <= i < |a| ==> (a + b)[i] == a[i];
  }

  lemma {:induction false} MoreItems(names: string, word: string)
    requires (forall i :: 0 <= i < |names| ==> Turn(names[i]) == 0) && IsPlain(word)
    ensures Items(names + (", " + word)) == Items(names) + [" " + word]
  {
    var ps, more := Items(names), ", " + word;
    DepthFlat(names, 0);
    PiecesConcat(names, more, 0, "");
    assert more[1..] == " " + word;
    assert Pieces(more, 0, LastOf(ps)) == [LastOf(ps)] + Pieces(" " + word, 0, "");
    assert IsPlain(" " + word);
    PlainIsOnePiece(" " + word);
    assert FrontOf(ps) + [LastOf(ps)] == ps;
  }

  lemma NamesAreNames()
    ensures IsName(GUARD) && IsName(CONTEXT)
  {
  }

  lemma {:induction false} StripBehind(prefix: string, names: string)
    requires !AllBlank(names)
    ensures RStrip(prefix + names) == prefix + RStrip(names)
    decreases |names|
  {
    var s := prefix + names;
    assert s[|s| - 1] == names[|names| - 1];
    if IsBlank(names[|names| - 1]) {
      var t := names[..|names| - 1];
      assert s[..|s| - 1] == prefix + t;
      assert names == t + [names[|names| - 1]];
      BlankBehind(t, [names[|names| - 1]]);
      StripBehind(prefix, t);
    }
  }

  /**
    The completed names are a list of names exactly when they were one before: not after an opening
    parenthesis that continues on the next line, a parenthesised list, a comment or a trailing comma.
   */
  lemma {:induction false} CompletedIsNameListIff(matched: string)
    requires AUTH <= matched && !AllBlank(matched[|AUTH|..]) && !NamesBoth(matched)
    ensures AUTH <= Completed(matched)
    ensures IsNameList(Completed(matched)[|AUTH|..]) <==> IsNameList(matched[|AUTH|..])
  {
    var names := matched[|AUTH|..];
    assert matched == AUTH + names;
    StripBehind(AUTH, names);
    assert Completed(matched) == AUTH + (RStrip(names) + Missing(matched));
    StrippedIsNameList(names);
    NamesAreNames();
    AddNames(RStrip(names), GUARD, Contains(matched, GUARD), CONTEXT, Contains(matched, CONTEXT));
  }

  /** An import that continues on the next line: the names are put between the parenthesis and the rest. */
  lemma OpenImportBreaks()
    ensures Completed(AUTH + "(") == AUTH + "(" + (", " + GUARD + (", " + CONTEXT))
    ensures !IsNameList("(" + (", " + GUARD + (", " + CONTEXT)))
  {
    var m := AUTH + "(";
    AuthSpelling();
    NameSpelling();
    NotContained(m, GUARD, 7);
    NotContained(m, CONTEXT, 0);
    assert m[|m| - 1] == '(' && RStrip(m) == m;
    var list := "(" + (", " + GUARD + (", " + CONTEXT));
    assert list[0] == '(' && Turn(list[0]) == 1;
  }

  lemma {:induction false} AddNames(r: string, g: string, hasG: bool, c: string, hasC: bool)
    requires IsName(g) && IsName(c)
    ensures IsNameList(r + ((if hasG then "" else ", " + g) + (if hasC then "" else ", " + c))) <==> IsNameList(r)
  {
    var first := if hasG then r else r + ", " + g;
    OneMoreName(r, g);
    OneMoreName(first, c);
    assert r + ((if hasG then "" else ", " + g) + (if hasC then "" else ", " + c)) == if hasC then first else first + ", " + c;
  }
}
