/** The definition lines that the fixer rewrites: which parenthesis closes a list, and how often a line is reached. */
module PatcherDefinitions {
  import opened Wrappers
  import opened Sequences
  import opened Text
  import opened CommaLists
  import opened ParameterLists
  import opened Patcher
  import opened PatcherEdits
  import opened PatcherSignature

  // ---- The list that a line's first parenthesis opens ----------------------------------------------------------

  function OpenAt(line: string): (o: nat)
    ensures o <= |line| && (o < |line| ==> line[o] == '(') && forall i :: 0 <= i < o ==> line[i] != '('
  {
    if line == "" || line[0] == '(' then 0 else 1 + OpenAt(line[1..])
  }

  /** Where the bracket that is open in front of `s` closes, or the length. */
  function Closing(s: string, depth: int): (k: nat)
    ensures k <= |s|
    decreases |s|
  {
    if s == "" || (depth == 0 && Turn(s[0]) == -1) then 0 else 1 + Closing(s[1..], depth + Turn(s[0]))
  }

  /** The parameter list of a definition line, if its parenthesis closes on the line. */
  function ListOfLine(line: string): Option<string> {
    var o := OpenAt(line);
    if o == |line| then None
    else
      var k := Closing(line[o + 1..], 0);
      if k == |line| - o - 1 then None else Some(line[o + 1..][..k])
  }

  predicate HasTheParameter(line: string) {
    ListOfLine(line).Some? && Holds(Items(ListOfLine(line).value))
  }

  predicate Holds(items: seq<string>) {
    exists i :: 0 <= i < |items| && IsTheParameter(items[i])
  }

  lemma {:induction false} ClosingConcat(x: string, y: string, depth: int)
    ensures Closing(x + y, depth) ==
            if Closing(x, depth) < |x| then Closing(x, depth) else |x| + Closing(y, DepthAfter(x, depth))
    decreases |x|
  {
    if x == "" {
      assert x + y == y;
    } else {
      assert (x + y)[0] == x[0] && (x + y)[1..] == x[1..] + y;
      ClosingConcat(x[1..], y, depth + Turn(x[0]));
    }
  }

  lemma {:induction false} ClosingFlat(s: string, depth: int)
    requires forall i :: 0 <= i < |s| ==> Turn(s[i]) == 0
    ensures Closing(s, depth) == |s|
    decreases |s|
  {
    if s != "" {
      ClosingFlat(s[1..], depth);
    }
  }

  /** Nothing closes exactly when the text never goes below where it began. */
  lemma {:induction false} ClosingNoneIff(s: string, depth: int)
    requires depth >= 0
    ensures Closing(s, depth) == |s| <==> Enclosed(s, depth)
    ensures Enclosed(s, depth) ==> DepthAfter(s, depth) >= 0
    decreases |s|
  {
    if s != "" && depth + Turn(s[0]) >= 0 {
      ClosingNoneIff(s[1..], depth + Turn(s[0]));
    }
  }

  lemma {:induction false} OpenConcat(x: string, y: string)
    requires OpenAt(x) < |x|
    ensures OpenAt(x + y) == OpenAt(x)
  {
    var o := OpenAt(x + y);
    assert (x + y)[OpenAt(x)] == '(';
    assert forall i :: 0 <= i < OpenAt(x) ==> (x + y)[i] == x[i];
  }

  /** A line that opens its list in `x`: the list is looked for in what follows the parenthesis. */
  lemma {:induction false} ListOfSplit(x: string, y: string)
    requires OpenAt(x) < |x|
    ensures var body := x[OpenAt(x) + 1..];
            var k := Closing(body + y, 0);
            ListOfLine(x + y) == if k == |body| + |y| then None else Some((body + y)[..k])
  {
    OpenConcat(x, y);
    assert (x + y)[OpenAt(x) + 1..] == x[OpenAt(x) + 1..] + y;
  }

  /** The list that `x` opens and `y` may close. */
  lemma {:induction false} ListAcross(x: string, y: string)
    requires OpenAt(x) < |x|
    ensures var body := x[OpenAt(x) + 1..];
            var c, k := Closing(body, 0), Closing(y, DepthAfter(body, 0));
            ListOfLine(x + y) ==
            if c < |body| then Some(body[..c]) else if k == |y| then None else Some(body + y[..k])
  {
    var body := x[OpenAt(x) + 1..];
    var c, k := Closing(body, 0), Closing(y, DepthAfter(body, 0));
    ListOfSplit(x, y);
    ClosingConcat(body, y, 0);
    if c < |body| {
      assert (body + y)[..c] == body[..c];
    } else {
      assert (body + y)[..|body| + k] == body + y[..k];
    }
  }

  lemma {:induction false} ClosingOfParen(rest: string, depth: int)
    requires depth >= 0 && forall i :: 0 <= i < |rest| ==> Turn(rest[i]) == 0
    ensures Closing(")" + rest, depth) == if depth == 0 then 0 else 1 + |rest|
  {
    assert (")" + rest)[1..] == rest;
    ClosingFlat(rest, depth - 1);
  }

  lemma {:induction false} ClosingOfWord(word: string, rest: string, depth: int)
    requires depth >= 0 && Enclosed(word, depth) && DepthAfter(word, depth) == depth
    requires forall i :: 0 <= i < |rest| ==> Turn(rest[i]) == 0
    ensures Closing(word + (")" + rest), depth) == if depth == 0 then |word| else |word| + 1 + |rest|
  {
    ClosingNoneIff(word, depth);
    ClosingConcat(word, ")" + rest, depth);
    ClosingOfParen(rest, depth);
  }

  /** With a word before the closing parenthesis the list, if this parenthesis closes it, has the word at its end. */
  lemma {:induction false} ListsAround(x: string, word: string, rest: string, colon: string)
    requires OpenAt(x) < |x|
    requires forall d :: d >= 0 ==> Enclosed(word, d) && DepthAfter(word, d) == d
    requires forall i :: 0 <= i < |rest| ==> Turn(rest[i]) == 0
    requires forall i :: 0 <= i < |colon| ==> Turn(colon[i]) == 0
    ensures var body := x[OpenAt(x) + 1..];
            var was, now := ListOfLine(x + (")" + rest)), ListOfLine(x + (word + (")" + colon)));
            if Enclosed(body, 0) && DepthAfter(body, 0) == 0 then was == Some(body) && now == Some(body + word)
            else was == now && (was.Some? ==> |was.value| < |body|)
  {
    var body := x[OpenAt(x) + 1..];
    var d := DepthAfter(body, 0);
    ListAcross(x, ")" + rest);
    ListAcross(x, word + (")" + colon));
    ClosingNoneIff(body, 0);
    if Enclosed(body, 0) {
      ClosingOfParen(rest, d);
      ClosingOfWord(word, colon, d);
      if d == 0 {
        assert (")" + rest)[..0] == "" && body + "" == body;
        assert (word + (")" + colon))[..|word|] == word;
      }
    }
  }

  // ---- Lines that end in `):` ------------------------------------------------------------------------------------

  lemma {:induction false} SignatureOpens(line: string, x: string)
    requires EndsAfter(line, x) && IsSignature(line)
    ensures OpenAt(x) < |x|
  {
    var i, k, m :| 0 <= i < k < m < |line| && line[i] == '(' && line[k] == ')' && line[m] == ':';
    assert k <= |x|;
    assert x[i] == '(';
  }

  /** The closing parenthesis at the end of the line is the one of the parameter list. */
  predicate ClosesItsList(line: string) {
    && ClosesSignature(line) && ListOfLine(line).Some?
    && OpenAt(line) + 1 + |ListOfLine(line).value| == |BeforeClose(line)|
  }

  lemma {:induction false} AroundParameter(x: string, rest: string)
    requires OpenAt(x) < |x| && forall i :: 0 <= i < |rest| ==> Turn(rest[i]) == 0
    ensures var body := x[OpenAt(x) + 1..];
            var was, now := ListOfLine(x + (")" + rest)), ListOfLine(x + (", " + PARAMETER + (")" + ":")));
            if Enclosed(body, 0) && DepthAfter(body, 0) == 0 then was == Some(body) && now == Some(body + (", " + PARAMETER))
            else was == now && (was.Some? ==> |was.value| < |body|)
  {
    forall d | d >= 0 ensures Enclosed(", " + PARAMETER, d) && DepthAfter(", " + PARAMETER, d) == d {
      ParameterIsEnclosed(d);
    }
    ListsAround(x, ", " + PARAMETER, rest, ":");
  }

  /** The two lists of a line that ends in `):`, before and after the rewriting. */
  lemma {:induction false} ListsOfRewritten(line: string)
    requires ClosesSignature(line) && IsSignature(line)
    ensures var was, now := ListOfLine(line), ListOfLine(AddParameter(line));
            if ClosesItsList(line) then
              DepthAfter(was.value, 0) == 0 && now == Some(was.value + (", " + PARAMETER))
            else now == was
  {
    var x := BeforeClose(line);
    var rest := CloseSplits(line);
    RewritesBeforeClose(line);
    AroundParameter(x, rest);
    OpenConcat(x, ")" + rest);
  }

  lemma {:induction false} CloseSplits(line: string) returns (rest: string)
    requires ClosesSignature(line) && IsSignature(line)
    ensures line == BeforeClose(line) + (")" + rest) && forall i :: 0 <= i < |rest| ==> Turn(rest[i]) == 0
    ensures OpenAt(BeforeClose(line)) < |BeforeClose(line)|
  {
    var x := BeforeClose(line);
    CloseShape(line);
    SignatureOpens(line, x);
    rest := line[|x| + 1..];
    SplitAround(line, |x|);
    assert forall i :: 0 <= i < |rest| ==> rest[i] == line[|x| + 1 + i];
  }

  /**
    A one-line signature receives the parameter exactly when it ends in `):` and this parenthesis is the one
    that closes its parameter list, not one of a return annotation; its list is then the old one and the parameter.
    A line that does not end in `):` only loses its trailing blanks.
   */
  lemma {:induction false} OneLineReceivesIff(line: string)
    requires IsSignature(line) && !HasTheParameter(line)
    ensures HasTheParameter(AddParameter(line)) <==> ClosesItsList(line)
    ensures ClosesItsList(line) ==>
              ListOfLine(AddParameter(line)) == Some(ListOfLine(line).value + ", " + PARAMETER)
    ensures !ClosesSignature(line) ==> AddParameter(line) <= line && AllBlank(line[|AddParameter(line)|..])
  {
    RStripSplits(line);
    if ClosesItsList(line) {
      ClosedListReceives(line);
    } else if ClosesSignature(line) {
      ListsOfRewritten(line);
    } else {
      StrippedList(line);
    }
  }

  lemma {:induction false} ClosedListReceives(line: string)
    requires IsSignature(line) && ClosesItsList(line)
    ensures ListOfLine(AddParameter(line)) == Some(ListOfLine(line).value + ", " + PARAMETER)
    ensures HasTheParameter(AddParameter(line))
  {
    ListsOfRewritten(line);
    var list := ListOfLine(line).value;
    Assoc(list, ", ", PARAMETER);
    GrownListHolds(list);
  }

  lemma {:induction false} GrownListHolds(list: string)
    requires DepthAfter(list, 0) == 0
    ensures Holds(Items(list + ", " + PARAMETER))
  {
    OneLinePieces(list);
    JustTheParameter(" ");
    var items := Items(list) + [" " + PARAMETER];
    assert items[|items| - 1] == " " + PARAMETER;
  }

  /** Blanks at the end of a line are not part of its list. */
  lemma {:induction false} StrippedList(line: string)
    ensures ListOfLine(RStrip(line)) == ListOfLine(line)
  {
    var s := RStrip(line);
    RStripSplits(line);
    var b := line[|s|..];
    assert line == s + b;
    BlanksTurnNothing(b);
    if OpenAt(s) < |s| {
      ClosingFlat(b, DepthAfter(s[OpenAt(s) + 1..], 0));
      ListAcross(s, b);
    } else {
      NoOpening(s, b);
    }
  }

  lemma NoOpening(s: string, b: string)
    requires OpenAt(s) == |s| && AllBlank(b)
    ensures OpenAt(s + b) == |s + b|
  {
    var o := OpenAt(s + b);
    assert o < |s + b| ==> o < |s| || IsBlank((s + b)[o]);
    assert forall i :: 0 <= i < |s| ==> (s + b)[i] == s[i];
  }

  /** With a call in the return annotation, the parameter ends up in that call. */
  lemma {:induction false} AnnotationTakesTheParameter(head: string, list: string, annotation: string)
    requires '(' !in head && Enclosed(list, 0) && DepthAfter(list, 0) == 0 && !Holds(Items(list))
    ensures var line := head + "(" + (list + (")" + annotation + "(")) + "):";
            && ListOfLine(line) == Some(list) && ClosesSignature(line) && !HasTheParameter(AddParameter(line))
  {
    var line := head + "(" + (list + (")" + annotation + "(")) + "):";
    var rest := annotation + "(" + "):";
    RegroupAnnotated(head, list, annotation);
    OpensAtHead(head, list + (")" + rest));
    ClosingOfList(list, rest);
    StartsAreClosed(head + "(" + (list + (")" + annotation + "(")));
    AnnotatedIsSignature(head, list, rest);
    OneLineReceivesIff(line);
  }

  lemma RegroupAnnotated(head: string, list: string, annotation: string)
    ensures head + "(" + (list + (")" + annotation + "(")) + "):" == head + "(" + (list + (")" + (annotation + "(" + "):")))
    ensures |annotation + "(" + "):"| > 0 && (annotation + "(" + "):")[|annotation| + 2] == ':'
  {
  }

  lemma {:induction false} AnnotatedIsSignature(head: string, list: string, rest: string)
    requires exists i :: 0 <= i < |rest| && rest[i] == ':'
    ensures IsSignature(head + "(" + (list + (")" + rest)))
  {
    var line := head + "(" + (list + (")" + rest));
    var i :| 0 <= i < |rest| && rest[i] == ':';
    var k := |head| + 1 + |list|;
    assert line[|head|] == '(' && line[k] == ')' && line[k + 1 + i] == ':';
  }

  lemma {:induction false} OpensAtHead(head: string, y: string)
    requires '(' !in head
    ensures OpenAt(head + "(" + y) == |head|
    ensures var k := Closing(y, 0);
            ListOfLine(head + "(" + y) == if k == |y| then None else Some(y[..k])
  {
    var line := head + "(" + y;
    assert line[|head|] == '(' && forall i :: 0 <= i < |head| ==> line[i] == head[i];
    assert line[|head| + 1..] == y;
  }

  lemma {:induction false} ClosingOfList(list: string, rest: string)
    requires Enclosed(list, 0) && DepthAfter(list, 0) == 0
    ensures Closing(list + (")" + rest), 0) == |list| && (list + (")" + rest))[..|list|] == list
  {
    ClosingNoneIff(list, 0);
    ClosingConcat(list, ")" + rest, 0);
  }

  lemma {:induction false} StartsAreClosed(start: string)
    ensures ClosesSignature(start + "):") && BeforeClose(start + "):") == start
  {
    var line, t := start + "):", start + ")";
    StripsNothing(line);
    StripsNothing(t);
    assert line[..|line| - 1] == t && t[..|t| - 1] == start;
  }

  // ---- Two findings that reach one definition --------------------------------------------------------------------

  lemma {:induction false} CountNone(s: string, c: char)
    requires c !in s
    ensures Count(s, c) == 0
  {
    if s != "" {
      CountNone(s[1..], c);
    }
  }

  lemma BalanceConcat(x: string, y: string)
    ensures Balance(x + y) == Balance(x) + Balance(y)
  {
    CountConcat(x, y, '(');
    CountConcat(x, y, ')');
  }

  lemma BalanceFlat(s: string)
    requires '(' !in s && ')' !in s
    ensures Balance(s) == 0
  {
    CountNone(s, '(');
    CountNone(s, ')');
  }

  lemma {:induction false} BalanceCall(front: string, inside: string)
    requires '(' !in front && ')' !in front && '(' !in inside && ')' !in inside
    ensures Balance(front + "(" + inside + ")") == 0
  {
    BalanceFlat(front);
    BalanceFlat(inside);
    BalanceConcat(front, "(");
    BalanceConcat(front + "(", inside);
    BalanceConcat(front + "(" + inside, ")");
    assert Balance("(") == 1 && Balance(")") == -1;
  }

  lemma {:induction false} ParameterBalances()
    ensures Balance(", " + PARAMETER) == 0
  {
    ParameterText();
    ParameterIsPlain();
    PlainHasNoParens(CALLEE);
    PlainHasNoParens(ARGUMENT);
    BalanceCall(CALLEE, ARGUMENT);
    BalanceFlat(", ");
    BalanceConcat(", ", PARAMETER);
  }

  lemma PlainHasNoParens(s: string)
    requires IsPlain(s)
    ensures '(' !in s && ')' !in s
  {
  }

  /** A one-line definition: indentation, name, list. */
  function DefLine(indent: string, name: string, list: string): string {
    indent + ("async def " + name) + "(" + list + "):"
  }

  lemma {:induction false} DefLineIsDef(indent: string, name: string, list: string)
    requires AllBlank(indent) && IsName(name)
    ensures var line := DefLine(indent, name, list); IsDef(line) && IsSignature(line) && '(' in line && ')' in line
  {
    var line := DefLine(indent, name, list);
    var rest := name + ("(" + list + "):");
    assert line == indent + ("async def " + rest);
    SkipBlanksPast(indent, "async def " + rest);
    assert ("async def " + rest)[0] == 'a';
    assert SkipBlanks("async def " + rest) == "async def " + rest;
    assert ("async def " + rest)[|"async def "|..] == rest;
    SkipWordPast(name, "(" + list + "):");
    var o := |indent + ("async def " + name)|;
    assert line[o] == '(' && line[o + 1 + |list|] == ')' && line[o + 2 + |list|] == ':';
  }

  /** The fix of a finding that reaches a balanced one-line definition rewrites that line. */
  lemma {:induction false} ReachesDefinition(lines: seq<string>, line: nat, d: nat)
    requires 0 < line <= d + 1 <= |lines| && d < line - 1 + 10
    requires IsDef(lines[d]) && forall i :: line - 1 <= i < d ==> !IsDef(lines[i])
    requires IsSignature(lines[d]) && '(' in lines[d] && ')' in lines[d] && Balance(lines[d]) == 0
    ensures EditFor(lines, Finding(line, MissingAuthentication)) == Change(d, AddParameter(lines[d]))
  {
    var stop := Window(lines, line - 1, 10);
    assert FirstIn(lines, IsDef, line - 1, stop) == d;
    assert Depth(lines, d, d) == 0;
    assert ClosesAt(lines, d, d);
    assert CloseOf(lines, d, d, Window(lines, d, 25)) == d;
  }

  lemma {:induction false} GrownDefLine(indent: string, name: string, list: string)
    ensures AddParameter(DefLine(indent, name, list)) == DefLine(indent, name, list + ", " + PARAMETER)
    ensures Balance(DefLine(indent, name, list + ", " + PARAMETER)) == Balance(DefLine(indent, name, list))
  {
    var head := indent + ("async def " + name);
    OneLineRewrites(head, list);
    ParameterBalances();
    BalanceAround(head + "(", list, ", " + PARAMETER, "):");
  }

  lemma {:induction false} BalanceAround(front: string, list: string, more: string, back: string)
    requires Balance(more) == 0
    ensures Balance(front + (list + more) + back) == Balance(front + list + back)
    ensures more == ", " + PARAMETER ==> front + (list + ", " + PARAMETER) + back == front + (list + more) + back
  {
    BalanceConcat(front + (list + more), back);
    BalanceConcat(front, list + more);
    BalanceConcat(list, more);
    BalanceConcat(front + list, back);
    BalanceConcat(front, list);
    assert more == ", " + PARAMETER ==> list + ", " + PARAMETER == list + more;
  }

  /**
    Two decorators of one handler, reported on two lines, both lead to its definition: the parameter is added
    twice, and a definition with two parameters of one name is none.
   */
  lemma {:induction false} TwoFindingsOneHandler(
    lines: seq<string>, first: nat, second: nat, d: nat, indent: string, name: string, list: string)
    requires 0 < second < first <= d + 1 <= |lines| && d < second - 1 + 10
    requires forall i :: second - 1 <= i < d ==> !IsDef(lines[i])
    requires AllBlank(indent) && IsName(name) && lines[d] == DefLine(indent, name, list)
    requires WellFormed(list) && Balance(lines[d]) == 0
    ensures var fs := [Finding(first, MissingAuthentication), Finding(second, MissingAuthentication)];
            var twice := list + ", " + PARAMETER + ", " + PARAMETER;
            Process(lines, fs) == lines[d := DefLine(indent, name, twice)] && !WellFormed(twice)
  {
    var once := list + ", " + PARAMETER;
    var f1, f2 := Finding(first, MissingAuthentication), Finding(second, MissingAuthentication);
    DefLineIsDef(indent, name, list);
    ReachesDefinition(lines, first, d);
    GrownDefLine(indent, name, list);
    var after := lines[d := DefLine(indent, name, once)];
    DefLineIsDef(indent, name, once);
    ReachesDefinition(after, second, d);
    GrownDefLine(indent, name, once);
    assert after[d := DefLine(indent, name, once + ", " + PARAMETER)] == lines[d := DefLine(indent, name, once + ", " + PARAMETER)];
    TwoSteps(lines, f1, f2);
    TwiceIsMalformed(list);
  }

  lemma {:induction false} TwiceIsMalformed(list: string)
    requires WellFormed(list)
    ensures !WellFormed(list + ", " + PARAMETER + ", " + PARAMETER)
  {
    ListGrows(list);
    ListGrows(list + ", " + PARAMETER);
    NamedTwice(ParamsOf(list), "u");
  }

  lemma TwoSteps(lines: seq<string>, f1: Finding, f2: Finding)
    requires f1.line > 0 && f2.line > 0
    ensures var one := Apply(lines, EditFor(lines, f1));
            Process(lines, [f1, f2]) == Apply(one, EditFor(one, f2))
  {
    var one := Apply(lines, EditFor(lines, f1));
    assert [f1, f2][1..] == [f2] && [f2][1..] == [];
    assert Process(one, [f2]) == Process(Apply(one, EditFor(one, f2)), []);
  }

  lemma NamedTwice(ps: seq<Param>, name: string)
    ensures !IsParameterList(ps + [Named(name, true)] + [Named(name, true)])
  {
    var p := Named(name, true);
    FitConcat(ps + [p], [p], START);
    FitConcat(ps, [p], START);
    var r := After(ps, START);
    assert [p][1..] == [];
    assert After([p], r) == Next(p, r);
    assert name in After(ps + [p], START).names;
  }
}
