/** Whether both names are imported in the end: as items of an import statement, and not only mentioned in the file. */
module PatcherImported {
  import opened Text
  import opened CommaLists
  import opened PatcherImports

  predicate HasItem(items: seq<string>, name: string) {
    exists i :: 0 <= i < |items| && Strip(items[i]) == name
  }

  /** The names of an import line. */
  function NamesOf(line: string): string
    requires IsImport(line)
  {
    Matched(line)[|AUTH|..]
  }

  /** The line is an import statement of the module itself, not indented, with the name in its list of names. */
  predicate ImportsName(line: string, name: string) {
    && IsImport(line) && ImportPos(line, 0) == 0
    && IsNameList(NamesOf(line)) && HasItem(Items(NamesOf(line)), name)
  }

  function BracketsOf(lines: seq<string>): int {
    if lines == [] then 0 else BracketsOf(lines[..|lines| - 1]) + DepthAfter(lines[|lines| - 1], 0)
  }

  predicate Continues(line: string) {
    line != "" && line[|line| - 1] == '\\'
  }

  /** A statement can start in line `i`: no bracket is open there, and the line before does not continue. */
  predicate StartsStatement(lines: seq<string>, i: nat)
    requires i <= |lines|
  {
    BracketsOf(lines[..i]) == 0 && (i == 0 || !Continues(lines[i - 1]))
  }

  predicate ImportedAt(lines: seq<string>, i: nat, name: string) {
    i < |lines| && StartsStatement(lines, i) && ImportsName(lines[i], name)
  }

  predicate IsImported(lines: seq<string>, name: string) {
    exists i :: 0 <= i < |lines| && ImportedAt(lines, i, name)
  }

  /** The name is an item, or not in the text at all, so that it is added. */
  predicate IsSettled(matched: string, names: string, name: string) {
    HasItem(Items(names), name) || !Contains(matched, name)
  }

  lemma {:induction false} StripBehindBlanks(a: string, b: string)
    requires AllBlank(b)
    ensures Strip(a + b) == Strip(a)
    decreases |b|
  {
    if b == "" {
      assert a + b == a;
    } else {
      var s := a + b;
      assert s[|s| - 1] == b[|b| - 1] && s[..|s| - 1] == a + b[..|b| - 1];
      StripBehindBlanks(a, b[..|b| - 1]);
    }
  }

  lemma {:induction false} StripName(name: string)
    requires IsName(name)
    ensures Strip(" " + name) == name
  {
    var item := " " + name;
    assert item[|item| - 1] == name[|name| - 1];
    assert RStrip(item) == item && item[1..] == name;
    assert SkipBlanks(name) == name;
  }

  lemma HasItemSnoc(items: seq<string>, item: string, name: string)
    ensures HasItem(items + [item], name) <==> HasItem(items, name) || Strip(item) == name
  {
    var all := items + [item];
    assert all[|items|] == item;
    if HasItem(items, name) {
      var i :| 0 <= i < |items| && Strip(items[i]) == name;
      assert all[i] == items[i];
    }
  }

  lemma {:induction false} StrippedHasItem(names: string, name: string)
    requires forall i :: 0 <= i < |names| ==> Turn(names[i]) == 0
    ensures HasItem(Items(RStrip(names)), name) <==> HasItem(Items(names), name)
  {
    var r := RStrip(names);
    var ps := Items(r);
    StrippedItems(names);
    StripBehindBlanks(LastOf(ps), names[|r|..]);
    HasItemSnoc(FrontOf(ps), LastOf(ps) + names[|r|..], name);
    HasItemSnoc(FrontOf(ps), LastOf(ps), name);
    assert FrontOf(ps) + [LastOf(ps)] == ps;
  }

  lemma {:induction false} MoreHasItem(names: string, word: string, name: string)
    requires IsName(word) && forall i :: 0 <= i < |names| ==> Turn(names[i]) == 0
    ensures HasItem(Items(names + ", " + word), name) <==> HasItem(Items(names), name) || word == name
  {
    assert names + ", " + word == names + (", " + word);
    assert IsPlain(word);
    MoreItems(names, word);
    HasItemSnoc(Items(names), " " + word, name);
    StripName(word);
  }

  /** The items of a completed list: those there were, and the words that were added. */
  lemma {:induction false} AddedItems(r: string, g: string, hasG: bool, c: string, hasC: bool, name: string)
    requires IsName(g) && IsName(c) && forall i :: 0 <= i < |r| ==> Turn(r[i]) == 0
    ensures HasItem(Items(r + ((if hasG then "" else ", " + g) + (if hasC then "" else ", " + c))), name) <==>
            HasItem(Items(r), name) || (!hasG && g == name) || (!hasC && c == name)
  {
    JoinMissing(r, g, hasG, c, hasC);
    var first := if hasG then r else r + ", " + g;
    if !hasG {
      MoreHasItem(r, g, name);
      NameTurnsNothing(r, g);
    }
    if !hasC {
      MoreHasItem(first, c, name);
    }
  }

  lemma JoinMissing(r: string, g: string, hasG: bool, c: string, hasC: bool)
    ensures var first := if hasG then r else r + ", " + g;
            r + ((if hasG then "" else ", " + g) + (if hasC then "" else ", " + c)) == if hasC then first else first + ", " + c
  {
  }

  lemma NameTurnsNothing(r: string, g: string)
    requires IsName(g) && forall i :: 0 <= i < |r| ==> Turn(r[i]) == 0
    ensures forall i :: 0 <= i < |r + ", " + g| ==> Turn((r + ", " + g)[i]) == 0
  {
    PlainTurns(r, ", ");
    PlainTurns(r + ", ", g);
  }

  lemma PlainTurns(a: string, b: string)
    requires (forall i :: 0 <= i < |a| ==> Turn(a[i]) == 0) && forall i :: 0 <= i < |b| ==> Turn(b[i]) == 0
    ensures forall i :: 0 <= i < |a + b| ==> Turn((a + b)[i]) == 0
  {
  }

  lemma NamesDiffer()
    ensures GUARD != CONTEXT
  {
    assert GUARD[0] == 'r' && CONTEXT[0] == 'U';
  }

  /** Text that mentions a name and is completed lists it exactly if it did, or did not mention it. */
  lemma {:induction false} CompletedHasItemIff(matched: string, name: string)
    requires AUTH <= matched && !AllBlank(matched[|AUTH|..]) && (name == GUARD || name == CONTEXT)
    requires IsNameList(matched[|AUTH|..])
    ensures AUTH <= Completed(matched)
    ensures HasItem(Items(Completed(matched)[|AUTH|..]), name) <==> IsSettled(matched, matched[|AUTH|..], name)
  {
    var names := matched[|AUTH|..];
    if !NamesBoth(matched) {
      CompletedNames(matched);
      NamesAreNames();
      NamesDiffer();
      CompletedItems(names, GUARD, Contains(matched, GUARD), CONTEXT, Contains(matched, CONTEXT), name);
    }
  }

  lemma {:induction false} CompletedItems(names: string, g: string, hasG: bool, c: string, hasC: bool, name: string)
    requires IsName(g) && IsName(c) && IsNameList(names)
    ensures HasItem(Items(RStrip(names) + ((if hasG then "" else ", " + g) + (if hasC then "" else ", " + c))), name) <==>
            HasItem(Items(names), name) || (!hasG && g == name) || (!hasC && c == name)
  {
    NameListTurns(names);
    StrippedHasItem(names, name);
    StrippedTurns(names);
    AddedItems(RStrip(names), g, hasG, c, hasC, name);
  }

  lemma NameListTurns(names: string)
    requires forall i :: 0 <= i < |names| ==> InNameList(names[i])
    ensures forall i :: 0 <= i < |names| ==> Turn(names[i]) == 0
  {
  }

  lemma {:induction false} CompletedNames(matched: string)
    requires AUTH <= matched && !AllBlank(matched[|AUTH|..]) && !NamesBoth(matched)
    ensures AUTH <= Completed(matched)
    ensures Completed(matched)[|AUTH|..] == RStrip(matched[|AUTH|..]) + Missing(matched)
  {
    var names := matched[|AUTH|..];
    assert matched == AUTH + names;
    StripBehind(AUTH, names);
    assert Completed(matched) == AUTH + (RStrip(names) + Missing(matched));
  }

  lemma StrippedTurns(names: string)
    requires forall i :: 0 <= i < |names| ==> Turn(names[i]) == 0
    ensures forall i :: 0 <= i < |RStrip(names)| ==> Turn(RStrip(names)[i]) == 0
  {
    RStripSplits(names);
  }

  lemma {:induction false} NameListIsNotBlank(names: string)
    requires IsNameList(names)
    ensures !AllBlank(names)
  {
    if AllBlank(names) {
      BlankItems(names);
    }
  }

  lemma {:induction false} BlankItems(names: string)
    requires AllBlank(names)
    ensures Items(names)[0] == names
  {
    BlanksAreFlat(names, 0);
    PiecesOfWord(names, "", 0, "");
    assert names + "" == names && "" + names == names;
  }

  /**
    A completed import line imports a name exactly when it is a statement, its names are a list of names, and
    the name is an item of it or was nowhere in the text.
   */
  lemma {:induction false} CompletedImportsIff(line: string, name: string)
    requires IsImport(line) && (name == GUARD || name == CONTEXT)
    ensures ImportsName(CompletedLine(line), name) <==>
            && ImportPos(line, 0) == 0 && IsNameList(NamesOf(line))
            && IsSettled(Matched(line), NamesOf(line), name)
  {
    var m := Matched(line);
    if NamesSomething(line) {
      CompletedLineImports(line);
      if NamesBoth(m) {
        assert Completed(m) == m;
      } else {
        CompletedIsNameListIff(m);
      }
      if IsNameList(NamesOf(line)) {
        CompletedHasItemIff(m, name);
      }
    } else {
      BlankImportIsLost(line);
      if IsNameList(NamesOf(line)) {
        NameListIsNotBlank(NamesOf(line));
      }
    }
  }

  // ---- The promise on whole files -------------------------------------------------------------------------------

  predicate BothImported(lines: seq<string>) {
    IsImported(lines, GUARD) && IsImported(lines, CONTEXT)
  }

  predicate BothImportedAt(lines: seq<string>, i: nat) {
    ImportedAt(lines, i, GUARD) && ImportedAt(lines, i, CONTEXT)
  }

  lemma {:induction false} NewImportImports()
    ensures ImportsName(NEW_IMPORT, GUARD) && ImportsName(NEW_IMPORT, CONTEXT)
  {
    var names := GUARD + ", " + CONTEXT;
    NamesAreNames();
    TwoNames(GUARD, CONTEXT);
    assert "" + (AUTH + names) == NEW_IMPORT;
    ImportLineShape("", names);
  }

  lemma {:induction false} TwoNames(g: string, c: string)
    requires IsName(g) && IsName(c)
    ensures var names := g + ", " + c;
            names != "" && IsNameList(names) && HasItem(Items(names), g) && HasItem(Items(names), c)
  {
    NameIsNameList(g);
    NameListTurns(g);
    OneMoreName(g, c);
    MoreHasItem(g, c, g);
    MoreHasItem(g, c, c);
  }

  lemma {:induction false} NameIsNameList(name: string)
    requires IsName(name)
    ensures IsNameList(name) && Items(name) == [name] && HasItem(Items(name), name)
  {
    assert IsPlain(name);
    PlainIsOnePiece(name);
    assert RStrip(name) == name && SkipBlanks(name) == name;
    assert Strip(Items(name)[0]) == name;
  }

  lemma SamePrefixStarts(lines: seq<string>, other: seq<string>, i: nat)
    requires i <= |lines| && i <= |other| && lines[..i] == other[..i]
    ensures StartsStatement(lines, i) == StartsStatement(other, i)
  {
    if i > 0 {
      assert lines[i - 1] == lines[..i][i - 1] == other[..i][i - 1] == other[i - 1];
    }
  }

  /** Without an import from the module: both are imported exactly when a statement can start where the new line goes. */
  lemma {:induction false} NewImportImportedIff(lines: seq<string>)
    requires FirstImport(lines, 0) == |lines|
    ensures BothImported(WithImports(lines)) <==> StartsStatement(lines, AfterImports(lines))
  {
    var n, r := AfterImports(lines), WithImports(lines);
    assert r[n] == NEW_IMPORT && r[..n] == lines[..n];
    NewImportImports();
    SamePrefixStarts(lines, r, n);
    NoOtherImport(lines, n, NEW_IMPORT);
    if StartsStatement(lines, n) {
      assert ImportedAt(r, n, GUARD) && ImportedAt(r, n, CONTEXT);
    }
  }

  lemma {:induction false} NoOtherImport(lines: seq<string>, n: nat, line: string)
    requires n <= |lines| && FirstImport(lines, 0) == |lines|
    ensures var r := lines[..n] + [line] + lines[n..];
            forall i :: 0 <= i < |r| && i != n ==> !IsImport(r[i])
  {
    var r := lines[..n] + [line] + lines[n..];
    forall i | 0 <= i < |r| && i != n ensures !IsImport(r[i]) {
      assert r[i] == if i < n then lines[i] else lines[i - 1];
    }
  }

  /** The import line imports this name once it is completed. */
  predicate CompletedImports(lines: seq<string>, i: nat, name: string)
    requires i < |lines| && IsImport(lines[i])
  {
    && StartsStatement(lines, i) && ImportPos(lines[i], 0) == 0 && IsNameList(NamesOf(lines[i]))
    && IsSettled(Matched(lines[i]), NamesOf(lines[i]), name)
  }

  /** The import line can be completed: a statement, with a list of names, that has or lacks each name as a whole. */
  predicate CanComplete(lines: seq<string>, i: nat)
    requires i < |lines| && IsImport(lines[i])
  {
    CompletedImports(lines, i, GUARD) && CompletedImports(lines, i, CONTEXT)
  }

  /** With one: it imports both afterwards exactly under that condition, and no other line comes to import anything. */
  lemma {:induction false} CompletedImportedIff(lines: seq<string>)
    requires FirstImport(lines, 0) < |lines|
    ensures var i, r := FirstImport(lines, 0), WithImports(lines);
            && |r| == |lines| && (BothImportedAt(r, i) <==> CanComplete(lines, i))
            && forall k :: 0 <= k < |lines| && k != i ==> r[k] == lines[k]
  {
    var i, r := FirstImport(lines, 0), WithImports(lines);
    assert r[i] == CompletedLine(lines[i]) && r[..i] == lines[..i];
    SamePrefixStarts(lines, r, i);
    CompletedImportsIff(lines[i], GUARD);
    CompletedImportsIff(lines[i], CONTEXT);
  }

  /**
    A later line imports the name. It starts a statement unless a bracket is open or the line before continues;
    completing line `i` puts something behind its backslash, if it has one.
   */
  predicate LaterImports(lines: seq<string>, i: nat, k: nat, name: string)
    requires i < k < |lines| && IsImport(lines[i])
  {
    && ImportsName(lines[k], name) && BracketsOf(lines[..k]) == 0
    && !(Continues(lines[k - 1]) && (k == i + 1 ==> NamesBoth(Matched(lines[i]))))
  }

  lemma {:induction false} DepthSum(x: string, depth: int)
    ensures DepthAfter(x, depth) == depth + DepthAfter(x, 0)
    decreases |x|
  {
    if x != "" {
      DepthSum(x[1..], depth + Turn(x[0]));
      DepthSum(x[1..], Turn(x[0]));
    }
  }

  lemma {:induction false} StrippedDepth(m: string)
    ensures DepthAfter(RStrip(m), 0) == DepthAfter(m, 0)
  {
    var r := RStrip(m);
    RStripSplits(m);
    assert m == r + m[|r|..];
    DepthConcat(r, m[|r|..], 0);
    BlanksAreFlat(m[|r|..], DepthAfter(r, 0));
  }

  lemma {:induction false} MissingIsFlat(hasG: bool, g: string, hasC: bool, c: string, depth: int)
    requires IsName(g) && IsName(c)
    ensures var more := (if hasG then "" else ", " + g) + (if hasC then "" else ", " + c);
            DepthAfter(more, depth) == depth && ((hasG && hasC) || (more != "" && IsWord(more[|more| - 1])))
  {
    var more := (if hasG then "" else ", " + g) + (if hasC then "" else ", " + c);
    assert forall i :: 0 <= i < |", " + g| ==> Turn((", " + g)[i]) == 0;
    assert forall i :: 0 <= i < |", " + c| ==> Turn((", " + c)[i]) == 0;
    DepthFlat(more, depth);
  }

  /** Completing leaves the brackets of a line as they are, and puts a name at its end if it adds anything. */
  lemma {:induction false} CompletedEnds(m: string)
    ensures DepthAfter(Completed(m), 0) == DepthAfter(m, 0)
    ensures !NamesBoth(m) ==> Completed(m) != "" && IsWord(Completed(m)[|Completed(m)| - 1])
  {
    if !NamesBoth(m) {
      var r, more := RStrip(m), Missing(m);
      NamesAreNames();
      MissingIsFlat(Contains(m, GUARD), GUARD, Contains(m, CONTEXT), CONTEXT, DepthAfter(r, 0));
      StrippedDepth(m);
      DepthConcat(r, more, 0);
      assert Completed(m) == r + more;
      assert (r + more)[|r + more| - 1] == more[|more| - 1];
    }
  }

  lemma {:induction false} CompletedLineEnds(line: string)
    requires IsImport(line)
    ensures DepthAfter(CompletedLine(line), 0) == DepthAfter(line, 0)
    ensures Continues(CompletedLine(line)) <==> Continues(line) && NamesBoth(Matched(line))
  {
    var pre, m := line[..ImportPos(line, 0)], Matched(line);
    assert line == pre + m;
    CompletedEnds(m);
    DepthConcat(pre, m, 0);
    DepthConcat(pre, Completed(m), 0);
    DepthSum(m, DepthAfter(pre, 0));
    DepthSum(Completed(m), DepthAfter(pre, 0));
    assert CompletedLine(line) == pre + Completed(m);
    if !NamesBoth(m) {
      assert CompletedLine(line)[|CompletedLine(line)| - 1] == Completed(m)[|Completed(m)| - 1];
    }
  }

  lemma {:induction false} SameBrackets(lines: seq<string>, other: seq<string>, k: nat)
    requires |lines| == |other| && k <= |lines|
    requires forall m :: 0 <= m < |lines| ==> DepthAfter(lines[m], 0) == DepthAfter(other[m], 0)
    ensures BracketsOf(lines[..k]) == BracketsOf(other[..k])
  {
    if k > 0 {
      SameBrackets(lines, other, k - 1);
      assert lines[..k][..k - 1] == lines[..k - 1] && other[..k][..k - 1] == other[..k - 1];
    }
  }

  /** A later line of the completed file. */
  lemma {:induction false} LaterImportedIff(lines: seq<string>, k: nat, name: string)
    requires FirstImport(lines, 0) < k < |lines|
    ensures ImportedAt(WithImports(lines), k, name) <==> LaterImports(lines, FirstImport(lines, 0), k, name)
  {
    var i, r := FirstImport(lines, 0), WithImports(lines);
    CompletedLineEnds(lines[i]);
    assert r == lines[i := CompletedLine(lines[i])];
    SameBrackets(lines, r, k);
    assert r[k] == lines[k];
  }

  lemma {:induction false} FirstImportedIff(lines: seq<string>, name: string)
    requires FirstImport(lines, 0) < |lines| && (name == GUARD || name == CONTEXT)
    ensures ImportedAt(WithImports(lines), FirstImport(lines, 0), name) <==>
            CompletedImports(lines, FirstImport(lines, 0), name)
  {
    var i, r := FirstImport(lines, 0), WithImports(lines);
    assert r[i] == CompletedLine(lines[i]) && r[..i] == lines[..i];
    SamePrefixStarts(lines, r, i);
    CompletedImportsIff(lines[i], name);
  }

  /**
    For every file with an import from the module: a name is imported afterwards exactly when the first import
    line imports it once completed, or a later line does.
   */
  lemma {:induction false} ImportedAfterIff(lines: seq<string>, name: string)
    requires FirstImport(lines, 0) < |lines| && (name == GUARD || name == CONTEXT)
    ensures var i := FirstImport(lines, 0);
            IsImported(WithImports(lines), name) <==>
            CompletedImports(lines, i, name) || exists k :: i < k < |lines| && LaterImports(lines, i, k, name)
  {
    var i, r := FirstImport(lines, 0), WithImports(lines);
    FirstImportedIff(lines, name);
    forall k | i < k < |lines| ensures ImportedAt(r, k, name) <==> LaterImports(lines, i, k, name) {
      LaterImportedIff(lines, k, name);
    }
    forall k | 0 <= k < i ensures !ImportedAt(r, k, name) {
      assert r[k] == lines[k];
    }
    assert |r| == |lines|;
  }

  /** In a file with a single import from the module, both are imported afterwards exactly when it can be completed. */
  lemma {:induction false} OnlyImportImportedIff(lines: seq<string>)
    requires FirstImport(lines, 0) < |lines|
    requires forall k :: 0 <= k < |lines| && k != FirstImport(lines, 0) ==> !IsImport(lines[k])
    ensures BothImported(WithImports(lines)) <==> CanComplete(lines, FirstImport(lines, 0))
  {
    ImportedAfterIff(lines, GUARD);
    ImportedAfterIff(lines, CONTEXT);
  }

  // ---- Where the promise fails ----------------------------------------------------------------------------------

  lemma {:induction false} OneLineFile(line: string)
    requires IsImport(line)
    ensures FirstImport([line], 0) == 0 && StartsStatement([line], 0)
  {
  }

  lemma {:induction false} ImportLineShape(prefix: string, names: string)
    requires names != "" && 'f' !in prefix
    ensures var line := prefix + (AUTH + names);
            IsImport(line) && ImportPos(line, 0) == |prefix| && NamesOf(line) == names
  {
    var line := prefix + (AUTH + names);
    AuthSpelling();
    assert line[|prefix|..|prefix| + |AUTH|] == AUTH;
    assert ImportsAt(line, |prefix|);
    forall m | 0 <= m < |prefix| ensures !ImportsAt(line, m) {
      assert line[m] == prefix[m];
      assert m + |AUTH| <= |line| ==> line[m..m + |AUTH|][0] == line[m];
    }
    assert line[|prefix|..] == AUTH + names;
  }

  /**
    A longer name, or one imported under an alias, hides the name from the substring test: `require_super_admin_or_owner`,
    `require_super_admin as check`.
   */
  lemma {:induction false} LongerNameHides(suffix: string)
    requires (forall i :: 0 <= i < |suffix| ==> IsWord(suffix[i]) || IsBlank(suffix[i])) && !AllBlank(suffix)
    ensures var file := [AUTH + (GUARD + suffix + ", " + CONTEXT)];
            WithImports(file) == file && !IsImported(file, GUARD) && IsImported(file, CONTEXT)
  {
    var names := GUARD + suffix + ", " + CONTEXT;
    var line := AUTH + names;
    assert line == "" + (AUTH + names);
    ImportLineShape("", names);
    OneLineFile(line);
    assert Matched(line) == line;
    assert line == (AUTH) + GUARD + (suffix + ", " + CONTEXT);
    OccursInside(AUTH, GUARD, suffix + ", " + CONTEXT);
    assert line == (AUTH + (GUARD + suffix + ", ")) + CONTEXT + "";
    OccursInside(AUTH + (GUARD + suffix + ", "), CONTEXT, "");
    StaysIff([line]);
    HiddenItems(suffix);
    assert ImportedAt([line], 0, CONTEXT);
  }

  lemma {:induction false} HiddenItems(suffix: string)
    requires (forall i :: 0 <= i < |suffix| ==> IsWord(suffix[i]) || IsBlank(suffix[i])) && !AllBlank(suffix)
    ensures var names := GUARD + suffix + ", " + CONTEXT;
            IsNameList(names) && HasItem(Items(names), CONTEXT) && !HasItem(Items(names), GUARD)
  {
    NamesAreNames();
    NamesDiffer();
    HidingItems(GUARD, suffix, CONTEXT);
  }

  lemma {:induction false} HidingItems(name: string, suffix: string, other: string)
    requires (forall i :: 0 <= i < |suffix| ==> IsWord(suffix[i]) || IsBlank(suffix[i])) && !AllBlank(suffix)
    requires IsName(name) && IsName(other) && name != other
    ensures var names := name + suffix + ", " + other;
            IsNameList(names) && HasItem(Items(names), other) && !HasItem(Items(names), name)
  {
    var word := name + suffix;
    LongNameList(name, suffix);
    OneMoreName(word, other);
    MoreHasItem(word, other, other);
    MoreHasItem(word, other, name);
    StripIsLonger(name, suffix);
  }

  lemma {:induction false} LongNameList(name: string, suffix: string)
    requires (forall i :: 0 <= i < |suffix| ==> IsWord(suffix[i]) || IsBlank(suffix[i])) && IsName(name)
    ensures IsNameList(name + suffix) && Items(name + suffix) == [name + suffix]
    ensures forall i :: 0 <= i < |name + suffix| ==> Turn((name + suffix)[i]) == 0
  {
    var word := name + suffix;
    assert forall i :: 0 <= i < |word| ==> IsWord(word[i]) || IsBlank(word[i]);
    assert IsPlain(word);
    PlainIsOnePiece(word);
    assert word[0] == name[0];
  }

  lemma {:induction false} StripIsLonger(name: string, suffix: string)
    requires IsName(name) && !AllBlank(suffix)
    ensures Strip(name + suffix) != name
  {
    StripBehind(name, suffix);
    var s := name + RStrip(suffix);
    assert s[0] == name[0] && SkipBlanks(s) == s;
    RStripSplits(suffix);
    assert suffix[0..] == suffix;
  }

  /** An import in a comment is completed like any other. */
  lemma {:induction false} CommentIsCompleted(names: string)
    requires names != ""
    ensures var file := ["# " + (AUTH + names)];
            FirstImport(file, 0) == 0 && !BothImported(WithImports(file))
  {
    var line := "# " + (AUTH + names);
    ImportLineShape("# ", names);
    OneLineFile(line);
    OnlyImportImportedIff([line]);
  }

  /** An import inside a function is completed, and the module's handlers see neither name. */
  lemma {:induction false} LocalImportIsCompleted(def: string, indent: string, names: string)
    requires !IsImport(def) && AllBlank(indent) && indent != "" && names != ""
    ensures var file := [def, indent + (AUTH + names)];
            FirstImport(file, 0) == 1 && !BothImported(WithImports(file))
  {
    var file := [def, indent + (AUTH + names)];
    ImportLineShape(indent, names);
    assert file[0] == def && file[1] == indent + (AUTH + names);
    assert FirstImport(file, 0) == 1;
    OnlyImportImportedIff(file);
  }

  /** Where the last import is spread over several lines, the new line goes behind its first, inside the parentheses. */
  lemma {:induction false} SpreadImportSwallows(first: string, rest: seq<string>)
    requires IsTopLevel(first) && DepthAfter(first, 0) != 0 && !IsImport(first)
    requires forall i :: 0 <= i < |rest| ==> !IsTopLevel(rest[i]) && !IsImport(rest[i])
    ensures var r := WithImports([first] + rest);
            r == [first] + [NEW_IMPORT] + rest && !BothImported(r)
  {
    var lines := [first] + rest;
    assert forall i :: 1 <= i < |lines| ==> lines[i] == rest[i - 1];
    assert lines[0] == first;
    assert FirstImport(lines, 0) == |lines|;
    assert AfterImports(lines) == 1;
    assert lines[..1] == [first] && lines[1..] == rest;
    assert [first][..0] == [];
    assert BracketsOf([first]) == DepthAfter(first, 0);
    NewImportImportedIff(lines);
  }

  lemma {:induction false} NoDotNoImport(line: string)
    requires '.' !in line
    ensures !IsImport(line)
  {
    assert AUTH[8] == '.';
    forall i | 0 <= i < |line| ensures !ImportsAt(line, i) {
      assert i + |AUTH| <= |line| ==> line[i..i + |AUTH|][8] == line[i + 8];
    }
  }

  /** As in a router that imports from FastAPI over three lines. */
  lemma {:induction false} SpreadImportExample()
    ensures !BothImported(WithImports(["from fastapi import (", "    APIRouter,", ")"]))
  {
    FirstLineOpens();
    OtherLines();
    ThreeLines("from fastapi import (", "    APIRouter,", ")");
  }

  lemma {:induction false} ThreeLines(first: string, second: string, third: string)
    requires IsTopLevel(first) && DepthAfter(first, 0) != 0 && !IsImport(first)
    requires !IsTopLevel(second) && !IsImport(second) && !IsTopLevel(third) && !IsImport(third)
    ensures !BothImported(WithImports([first, second, third]))
  {
    var rest := [second, third];
    assert rest[0] == second && rest[1] == third;
    SpreadImportSwallows(first, rest);
    assert [first] + rest == [first, second, third];
  }

  lemma {:induction false} FirstLineOpens()
    ensures var first := "from fastapi import (";
            IsTopLevel(first) && DepthAfter(first, 0) == 1 && !IsImport(first)
  {
    var first, words := "from fastapi import (", "from fastapi import ";
    NoDotNoImport(first);
    assert first == words + "(";
    assert forall i :: 0 <= i < |words| ==> Turn(words[i]) == 0;
    OpensOne(words);
  }

  lemma {:induction false} OpensOne(words: string)
    requires forall i :: 0 <= i < |words| ==> Turn(words[i]) == 0
    ensures DepthAfter(words + "(", 0) == 1
  {
    DepthFlat(words, 0);
    DepthConcat(words, "(", 0);
    assert DepthAfter("(", 0) == 1;
  }

  lemma {:induction false} OtherLines()
    ensures !IsTopLevel("    APIRouter,") && !IsImport("    APIRouter,") && !IsTopLevel(")") && !IsImport(")")
  {
    NoDotNoImport("    APIRouter,");
    NoDotNoImport(")");
    assert "    APIRouter,"[0] == ' ';
  }
}
