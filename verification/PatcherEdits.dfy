/** The two rewritings of a line, stated by what they leave of it. */
module PatcherEdits {
  import opened Text
  import opened CommaLists
  import opened Patcher

  // ---- Replacing the bare dependency ---------------------------------------------------------------------------------

  /** `y` is `z` with the first bare dependency turned into the guarded one, and nothing else changed. */
  ghost predicate Guards(z: string, y: string) {
    exists pre, post :: SplitsAtBare(z, pre, post) && y == pre + "Depends(require_super_admin)" + post
  }

  ghost predicate SplitsAtBare(z: string, pre: string, post: string) {
    && z == pre + "Depends(get_current_user)" + post
    && forall i :: 0 <= i < |pre| ==> !OccursAt(z, "Depends(get_current_user)", i)
  }

  /** A line with the bare dependency: one that contains this text. */
  lemma BareIff(line: string)
    ensures IsBare(line) <==> exists i :: 0 <= i <= |line| && OccursAt(line, "Depends(get_current_user)", i)
  {
  }

  lemma {:induction false} ReplacingGuards(z: string)
    requires IsBare(z)
    ensures Guards(z, ReplaceFirst(z, BARE, GUARDED))
  {
    var k := Find(z, BARE, 0);
    var i :| 0 <= i <= |z| && OccursAt(z, BARE, i);
    assert k <= i;
    var pre, post := z[..k], z[k + |BARE|..];
    SplitOccurrence(z, BARE, k);
    assert SplitsAtBare(z, pre, post);
    assert ReplaceFirst(z, BARE, GUARDED) == pre + GUARDED + post;
  }

  lemma SplitOccurrence(z: string, pattern: string, k: nat)
    requires OccursAt(z, pattern, k)
    ensures z == z[..k] + pattern + z[k + |pattern|..]
  {
    assert z[k..k + |pattern|] == pattern;
    assert z == z[..k] + z[k..k + |pattern|] + z[k + |pattern|..];
  }

  /** How often a pattern occurs, overlaps included. */
  function Occurrences(s: string, pattern: string): nat {
    if s == "" then 0 else (if OccursAt(s, pattern, 0) then 1 else 0) + Occurrences(s[1..], pattern)
  }

  lemma {:induction false} OccursBehind(x: string, y: string, pattern: string)
    requires forall i :: 0 <= i < |x| ==> !OccursAt(x + y, pattern, i)
    ensures Occurrences(x + y, pattern) == Occurrences(y, pattern)
  {
    if x == "" {
      assert x + y == y;
    } else {
      assert (x + y)[1..] == x[1..] + y;
      assert !OccursAt(x + y, pattern, 0);
      forall i | 0 <= i < |x[1..]| ensures !OccursAt(x[1..] + y, pattern, i) {
        assert !OccursAt(x + y, pattern, i + 1);
        assert i + 1 + |pattern| <= |x + y| ==> (x[1..] + y)[i..i + |pattern|] == (x + y)[i + 1..i + 1 + |pattern|];
      }
      OccursBehind(x[1..], y, pattern);
    }
  }

  lemma BareSpelling()
    ensures |BARE| == 25 && BARE[0] == 'D' && BARE[8] == 'g' && forall i :: 1 <= i < |BARE| ==> BARE[i] != 'D'
  {
  }

  lemma GuardedSpelling()
    ensures |GUARDED| == 28 && GUARDED[0] == 'D' && GUARDED[8] == 'r' && forall i :: 1 <= i < |GUARDED| ==> GUARDED[i] != 'D'
  {
  }

  /** A pattern with its first letter nowhere else does not occur across the beginning of a word with that letter. */
  lemma {:induction false} NoneAcross(pre: string, word: string, post: string, pattern: string, i: nat)
    requires i < |pre| && word != "" && pattern != "" && word[0] == pattern[0]
    requires forall k :: 1 <= k < |pattern| ==> pattern[k] != pattern[0]
    requires i + |pattern| > |pre|
    ensures !OccursAt(pre + word + post, pattern, i)
  {
    var s := pre + word + post;
    assert s[|pre|] == word[0];
    assert i + |pattern| <= |s| ==> s[i..i + |pattern|][|pre| - i] == s[|pre|];
  }

  /** Nor can it begin inside such a word. */
  lemma {:induction false} NoneInside(pre: string, word: string, post: string, pattern: string, i: nat)
    requires |pre| < i < |pre| + |word| && pattern != ""
    requires forall k :: 1 <= k < |word| ==> word[k] != pattern[0]
    ensures !OccursAt(pre + word + post, pattern, i)
  {
    var s := pre + word + post;
    assert s[i] == word[i - |pre|];
    assert i + |pattern| <= |s| ==> s[i..i + |pattern|][0] == s[i];
  }

  lemma {:induction false} SamePrefix(pre: string, a: string, b: string, pattern: string, i: nat)
    requires i + |pattern| <= |pre|
    ensures OccursAt(pre + a, pattern, i) <==> OccursAt(pre + b, pattern, i)
  {
    assert (pre + a)[i..i + |pattern|] == pre[i..i + |pattern|] == (pre + b)[i..i + |pattern|];
  }

  /** Before the rewriting: the occurrence that is replaced, and those behind it. */
  lemma {:induction false} FirstAndOthers(pre: string, word: string, post: string)
    requires word != "" && forall k :: 1 <= k < |word| ==> word[k] != word[0]
    requires forall i :: 0 <= i < |pre| ==> !OccursAt(pre + word + post, word, i)
    ensures Occurrences(pre + word + post, word) == 1 + Occurrences(post, word)
  {
    var s, rest := word + post, word[1..];
    assert pre + word + post == pre + s;
    OccursBehind(pre, s, word);
    assert s[0..0 + |word|] == word;
    assert s[1..] == rest + post;
    forall i | 0 <= i < |rest| ensures !OccursAt(rest + post, word, i) {
      assert (rest + post)[i] == word[i + 1];
      assert i + |word| <= |rest + post| ==> (rest + post)[i..i + |word|][0] == (rest + post)[i];
    }
    OccursBehind(rest, post, word);
  }

  /** After it: only those behind it. */
  lemma {:induction false} BareAfter(z: string, pre: string, post: string)
    requires z == pre + BARE + post && forall i :: 0 <= i < |pre| ==> !OccursAt(z, BARE, i)
    ensures Occurrences(pre + GUARDED + post, BARE) == Occurrences(post, BARE)
  {
    BareSpelling();
    GuardedSpelling();
    var x := pre + GUARDED;
    forall i | 0 <= i < |x| ensures !OccursAt(x + post, BARE, i) {
      if i + |BARE| <= |pre| {
        SamePrefix(pre, GUARDED + post, BARE + post, BARE, i);
        assert x + post == pre + (GUARDED + post) && z == pre + (BARE + post);
      } else if i < |pre| {
        NoneAcross(pre, GUARDED, post, BARE, i);
      } else if i == |pre| {
        assert (x + post)[i + 8] == GUARDED[8];
        assert i + |BARE| <= |x + post| ==> (x + post)[i..i + |BARE|][8] == (x + post)[i + 8];
      } else {
        NoneInside(pre, GUARDED, post, BARE, i);
      }
    }
    OccursBehind(x, post, BARE);
  }

  /**
    A bare fix that takes effect: the line it edits is split at its first bare dependency, the guarded one stands
    in its place, the rest is as it was, and the bare text occurs once less.
   */
  lemma {:induction false} BareFixGuards(lines: seq<string>, line: nat)
    requires line > 0 && BareEdit(lines, line) != Nothing
    ensures var e := BareEdit(lines, line);
            && e.Change? && line - 1 <= e.at < |lines| && e.at < line + 19
            && Guards(lines[e.at], e.text)
            && Occurrences(lines[e.at], "Depends(get_current_user)") == Occurrences(e.text, "Depends(get_current_user)") + 1
            && forall i :: line - 1 <= i < e.at ==> !IsBare(lines[i])
  {
    var e := BareEdit(lines, line);
    var z := lines[e.at];
    ReplacingGuards(z);
    var pre, post :| SplitsAtBare(z, pre, post) && e.text == pre + "Depends(require_super_admin)" + post;
    BareSpelling();
    FirstAndOthers(pre, BARE, post);
    BareAfter(z, pre, post);
  }

  // ---- Adding the parameter ---------------------------------------------------------------------------------------------

  /** The line is `x`, a closing parenthesis, and a colon with blanks around it. */
  ghost predicate EndsAfter(line: string, x: string) {
    && |x| < |line| && line[..|x|] == x && line[|x|] == ')'
    && (exists i :: |x| < i < |line| && line[i] == ':')
    && forall i :: |x| < i < |line| ==> IsBlank(line[i]) || line[i] == ':'
  }

  /** What stands before the last closing parenthesis of a line that ends in `):`. */
  function BeforeClose(line: string): string
    requires ClosesSignature(line)
  {
    var s := RStrip(line);
    var t := RStrip(s[..|s| - 1]);
    t[..|t| - 1]
  }

  lemma {:induction false} CloseShape(line: string)
    requires ClosesSignature(line)
    ensures EndsAfter(line, BeforeClose(line))
  {
    var s := RStrip(line);
    var before := s[..|s| - 1];
    var t := RStrip(before);
    var x := t[..|t| - 1];
    RStripSplits(line);
    RStripSplits(before);
    assert line[|s| - 1] == ':';
    forall i | |x| < i < |line| ensures IsBlank(line[i]) || line[i] == ':' {
      if i >= |s| {
        assert line[|s|..][i - |s|] == line[i];
      } else if i < |s| - 1 {
        assert before[|t|..][i - |t|] == line[i];
      }
    }
    assert line[|x|] == t[|x|];
  }

  lemma {:induction false} RewritesBeforeClose(line: string)
    requires ClosesSignature(line)
    ensures AddParameter(line) == BeforeClose(line) + (", " + PARAMETER + (")" + ":"))
  {
    RegroupParameter(BeforeClose(line), PARAMETER);
  }

  lemma RegroupParameter(x: string, word: string)
    ensures x + ", " + word + "):" == x + (", " + word + (")" + ":"))
  {
  }

  /**
    `y` is `z` with the parameter and a comma before the parenthesis that ends it, or, if it ends otherwise,
    without the blanks at its end.
   */
  ghost predicate Extends(z: string, y: string) {
    || (exists x :: EndsAfter(z, x) && y == x + (", " + ("u: UserContext = " + "Depends(require_super_admin)") + (")" + ":")))
    || (y <= z && AllBlank(z[|y|..]))
  }

  lemma {:induction false} RewritingExtends(z: string)
    ensures Extends(z, AddParameter(z))
  {
    if ClosesSignature(z) {
      CloseShape(z);
      RewritesBeforeClose(z);
      assert EndsAfter(z, BeforeClose(z));
    } else {
      RStripSplits(z);
    }
  }

  /** The lines on which the rewriting adds the parameter, by their shape. */
  lemma {:induction false} ClosesSignatureIff(line: string)
    ensures ClosesSignature(line) <==>
            exists x, a, b :: AllBlank(a) && AllBlank(b) && line == x + ")" + a + ":" + b
  {
    if ClosesSignature(line) {
      var s := RStrip(line);
      var before := s[..|s| - 1];
      var t := RStrip(before);
      RStripSplits(line);
      RStripSplits(before);
      var x, a, b := t[..|t| - 1], before[|t|..], line[|s|..];
      assert line == x + ")" + a + ":" + b;
    }
    forall x, a, b | AllBlank(a) && AllBlank(b) && line == x + ")" + a + ":" + b ensures ClosesSignature(line) {
      StripsTo(x + ")" + a + ":", b);
      StripsTo(x + ")", a);
      assert (x + ")" + a + ":")[..|x + ")" + a|] == x + ")" + a;
    }
  }

  /** The line has the shape of a whole signature: something in parentheses, and a colon behind them. */
  ghost predicate HasSignatureShape(line: string) {
    exists a, b, c, e :: line == a + "(" + b + ")" + c + ":" + e
  }

  lemma {:induction false} IsSignatureIff(line: string)
    ensures IsSignature(line) <==> HasSignatureShape(line)
  {
    if IsSignature(line) {
      var i, k, m :| 0 <= i < k < m < |line| && line[i] == '(' && line[k] == ')' && line[m] == ':';
      var a, b, c, e := line[..i], line[i + 1..k], line[k + 1..m], line[m + 1..];
      assert line == a + "(" + b + ")" + c + ":" + e;
    }
    if HasSignatureShape(line) {
      var a, b, c, e :| line == a + "(" + b + ")" + c + ":" + e;
      ShapePlaces(a, b, c, e);
    }
  }

  lemma ShapePlaces(a: string, b: string, c: string, e: string)
    ensures IsSignature(a + "(" + b + ")" + c + ":" + e)
  {
    var line := a + "(" + b + ")" + c + ":" + e;
    var i, k, m := |a|, |a| + 1 + |b|, |a| + 2 + |b| + |c|;
    assert line[i] == '(';
    assert line[k] == ')';
    assert line[m] == ':';
  }

  lemma {:induction false} StripsTo(word: string, b: string)
    requires word != "" && !IsBlank(word[|word| - 1]) && AllBlank(b)
    ensures RStrip(word + b) == word
    decreases |b|
  {
    if b == "" {
      assert word + b == word;
    } else {
      var s := word + b;
      assert s[|s| - 1] == b[|b| - 1] && s[..|s| - 1] == word + b[..|b| - 1];
      StripsTo(word, b[..|b| - 1]);
    }
  }

  // ---- Characters ------------------------------------------------------------------------------------------------------------

  /** Blanks are the code points 9 to 13 and the space; words are made of digits, ASCII letters and the underscore. */
  lemma CharactersAre(c: char)
    ensures IsBlank(c) <==> 9 <= c as int <= 13 || c as int == 32
    ensures IsWord(c) <==>
            48 <= c as int <= 57 || 65 <= c as int <= 90 || c as int == 95 || 97 <= c as int <= 122
  {
  }

  // ---- Finding definitions ------------------------------------------------------------------------------------------------

  /** Indentation and what follows it make up the line. */
  lemma {:induction false} IndentSplits(s: string)
    ensures LeadingBlanks(s) + SkipBlanks(s) == s && AllBlank(LeadingBlanks(s))
    ensures SkipBlanks(s) == "" || !IsBlank(SkipBlanks(s)[0])
  {
    if s != "" && IsBlank(s[0]) {
      IndentSplits(s[1..]);
      assert s == [s[0]] + s[1..];
      assert [s[0]] + LeadingBlanks(s[1..]) + SkipBlanks(s[1..]) == [s[0]] + (LeadingBlanks(s[1..]) + SkipBlanks(s[1..]));
    }
  }

  lemma {:induction false} WordSplits(s: string)
    ensures |SkipWord(s)| <= |s| && s[|s| - |SkipWord(s)|..] == SkipWord(s)
    ensures forall i :: 0 <= i < |s| - |SkipWord(s)| ==> IsWord(s[i])
    ensures SkipWord(s) == "" || !IsWord(SkipWord(s)[0])
  {
    if s != "" && IsWord(s[0]) {
      WordSplits(s[1..]);
    }
  }

  /** A definition line: blanks, `async def`, one space, a word and an opening parenthesis. */
  ghost predicate IsDefShape(line: string, indent: string, name: string, rest: string) {
    && AllBlank(indent) && name != "" && (forall i :: 0 <= i < |name| ==> IsWord(name[i]))
    && line == indent + ("async def " + (name + ("(" + rest)))
  }

  lemma SplitKeyword(s: string, keyword: string)
    requires keyword <= s
    ensures s == keyword + s[|keyword|..]
  {
  }

  lemma {:induction false} DefHasShape(line: string)
    requires IsDef(line)
    ensures exists indent, name, rest :: IsDefShape(line, indent, name, rest)
  {
    var s := SkipBlanks(line);
    var after := s[|"async def "|..];
    var tail := SkipWord(after);
    IndentSplits(line);
    WordSplits(after);
    var name := after[..|after| - |tail|];
    assert after == name + tail && tail == "(" + tail[1..];
    SplitKeyword(s, "async def ");
    assert IsDefShape(line, LeadingBlanks(line), name, tail[1..]);
  }

  lemma {:induction false} ShapeIsDef(line: string, indent: string, name: string, rest: string)
    requires IsDefShape(line, indent, name, rest)
    ensures IsDef(line)
  {
    var after := name + ("(" + rest);
    var s := "async def " + after;
    SkipIndentTo(indent, s);
    assert s[|"async def "|..] == after;
    SkipWordTo(name, "(" + rest);
  }

  lemma {:induction false} SkipIndentTo(indent: string, s: string)
    requires AllBlank(indent) && s != "" && !IsBlank(s[0])
    ensures SkipBlanks(indent + s) == s
  {
    if indent == "" {
      assert indent + s == s;
    } else {
      assert (indent + s)[1..] == indent[1..] + s;
      SkipIndentTo(indent[1..], s);
    }
  }

  lemma {:induction false} SkipWordTo(w: string, rest: string)
    requires (forall i :: 0 <= i < |w| ==> IsWord(w[i])) && rest != "" && !IsWord(rest[0])
    ensures SkipWord(w + rest) == rest
  {
    if w == "" {
      assert w + rest == rest;
    } else {
      assert (w + rest)[1..] == w[1..] + rest;
      SkipWordTo(w[1..], rest);
    }
  }

  lemma IsDefIff(line: string)
    ensures IsDef(line) <==> exists indent, name, rest :: IsDefShape(line, indent, name, rest)
  {
    if IsDef(line) {
      DefHasShape(line);
    }
    forall indent, name, rest | IsDefShape(line, indent, name, rest) ensures IsDef(line) {
      ShapeIsDef(line, indent, name, rest);
    }
  }

  /** The line that is inserted: the definition's indentation, four spaces more, the parameter and a comma. */
  lemma {:induction false} NewParameterLineIs(line: string, indent: string, rest: string)
    requires AllBlank(indent) && rest != "" && !IsBlank(rest[0]) && line == indent + rest
    ensures NewParameterLine(line) == indent + "    " + ("u: UserContext = " + "Depends(require_super_admin)") + ","
  {
    IndentSplits(line);
    SkipIndentTo(indent, rest);
    assert LeadingBlanks(line) == line[..|line| - |rest|] == indent;
  }

  // ---- Closing the signature -------------------------------------------------------------------------------------------------

  /** The text of the lines, one after the other. */
  function Joined(lines: seq<string>): string {
    if lines == [] then "" else lines[0] + Joined(lines[1..])
  }

  lemma {:induction false} CountConcat(x: string, y: string, c: char)
    ensures Count(x + y, c) == Count(x, c) + Count(y, c)
  {
    if x == "" {
      assert x + y == y;
    } else {
      assert (x + y)[1..] == x[1..] + y;
      CountConcat(x[1..], y, c);
    }
  }

  lemma {:induction false} JoinedSnoc(lines: seq<string>, last: string)
    ensures Joined(lines + [last]) == Joined(lines) + last
  {
    if lines == [] {
      assert [] + [last] == [last] && [last][1..] == [];
    } else {
      assert (lines + [last])[1..] == lines[1..] + [last];
      JoinedSnoc(lines[1..], last);
    }
  }

  /** The running depth is the surplus of opening over closing parentheses in all of the text read so far. */
  lemma {:induction false} DepthIsSurplus(lines: seq<string>, from: nat, stop: nat)
    requires from <= stop <= |lines|
    ensures var text := Joined(lines[from..stop]); Depth(lines, from, stop) == Count(text, '(') - Count(text, ')')
    decreases stop - from
  {
    if from < stop {
      DepthIsSurplus(lines, from, stop - 1);
      var init, last := lines[from..stop - 1], lines[stop - 1];
      assert lines[from..stop] == init + [last];
      JoinedSnoc(init, last);
      CountConcat(Joined(init), last, '(');
      CountConcat(Joined(init), last, ')');
    }
  }

  /** Line `e` is the first of the 25 from the definition on where its parentheses balance. */
  ghost predicate ClosesFirst(lines: seq<string>, d: nat, e: nat) {
    && d <= e < |lines| && e < d + 25 && ClosesAt(lines, d, e)
    && forall k :: d <= k < e ==> !ClosesAt(lines, d, k)
  }

  /**
    The fix of a definition: a parameter line right before the line that closes the signature; on a one-line
    signature a rewritten line; and nothing if it closes nowhere in 25 lines.
   */
  lemma {:induction false} SignatureEditIs(lines: seq<string>, d: nat)
    requires d < |lines|
    ensures forall e: nat :: ClosesFirst(lines, d, e) && e > d ==>
              SignatureEdit(lines, d) == Insertion(e, NewParameterLine(lines[d]))
    ensures ClosesFirst(lines, d, d) ==>
              SignatureEdit(lines, d) == if IsSignature(lines[d]) then Change(d, AddParameter(lines[d])) else Nothing
    ensures (forall e: nat :: !ClosesFirst(lines, d, e)) ==> SignatureEdit(lines, d) == Nothing
  {
    var limit := Window(lines, d, 25);
    var c := CloseOf(lines, d, d, limit);
    assert limit <= d + 25 && limit <= |lines| && (limit == d + 25 || limit == |lines|);
    forall e: nat | ClosesFirst(lines, d, e) ensures c == e {
      assert e < limit;
    }
    if c < limit {
      assert ClosesFirst(lines, d, c);
    }
  }
}
