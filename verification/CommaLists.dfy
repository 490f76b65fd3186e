/** Lists written with commas: their text is cut at the commas outside brackets. */
module CommaLists {
  import opened Text

  function Turn(c: char): int {
    if c == '(' || c == '[' || c == '{' then 1
    else if c == ')' || c == ']' || c == '}' then -1
    else 0
  }

  function DepthAfter(s: string, depth: int): int {
    if s == "" then depth else DepthAfter(s[1..], depth + Turn(s[0]))
  }

  /** The pieces of `s` between commas at depth 0; the first one continues `current`. */
  function Pieces(s: string, depth: int, current: string): (ps: seq<string>)
    ensures ps != [] && current <= ps[0]
    decreases |s|
  {
    if s == "" then [current]
    else if s[0] == ',' && depth == 0 then [current] + Pieces(s[1..], 0, "")
    else Pieces(s[1..], depth + Turn(s[0]), current + [s[0]])
  }

  /** The items of a list. */
  function Items(list: string): seq<string> {
    Pieces(list, 0, "")
  }

  function LastOf(ps: seq<string>): string
    requires ps != []
  {
    ps[|ps| - 1]
  }

  function FrontOf(ps: seq<string>): seq<string>
    requires ps != []
  {
    ps[..|ps| - 1]
  }

  predicate AllBlank(s: string) {
    forall i :: 0 <= i < |s| ==> IsBlank(s[i])
  }

  lemma {:induction false} DepthConcat(x: string, y: string, depth: int)
    ensures DepthAfter(x + y, depth) == DepthAfter(y, DepthAfter(x, depth))
    decreases |x|
  {
    if x == "" {
      assert x + y == y;
    } else {
      assert (x + y)[1..] == x[1..] + y;
      DepthConcat(x[1..], y, depth + Turn(x[0]));
    }
  }

  lemma {:induction false} DepthFlat(s: string, depth: int)
    requires forall i :: 0 <= i < |s| ==> Turn(s[i]) == 0
    ensures DepthAfter(s, depth) == depth
    decreases |s|
  {
    if s != "" {
      DepthFlat(s[1..], depth);
    }
  }

  /** Reading on: the last piece so far is continued by the rest of the text. */
  lemma {:induction false} PiecesConcat(x: string, y: string, depth: int, current: string)
    ensures var ps := Pieces(x, depth, current);
            Pieces(x + y, depth, current) == FrontOf(ps) + Pieces(y, DepthAfter(x, depth), LastOf(ps))
    decreases |x|
  {
    if x == "" {
      assert x + y == y;
      assert FrontOf([current]) == [];
    } else {
      assert (x + y)[0] == x[0] && (x + y)[1..] == x[1..] + y;
      if x[0] == ',' && depth == 0 {
        PiecesConcat(x[1..], y, 0, "");
        ConsPieces(current, Pieces(x[1..], 0, ""), Pieces(y, DepthAfter(x, depth), LastOf(Pieces(x[1..], 0, ""))));
      } else {
        PiecesConcat(x[1..], y, depth + Turn(x[0]), current + [x[0]]);
      }
    }
  }

  lemma ConsPieces(p: string, ps: seq<string>, rest: seq<string>)
    requires ps != []
    ensures [p] + (FrontOf(ps) + rest) == FrontOf([p] + ps) + rest && LastOf([p] + ps) == LastOf(ps)
  {
  }

  /** Text without commas only continues the current piece. */
  lemma {:induction false} PiecesOfWord(x: string, y: string, depth: int, current: string)
    requires ',' !in x
    ensures Pieces(x + y, depth, current) == Pieces(y, DepthAfter(x, depth), current + x)
    decreases |x|
  {
    if x == "" {
      assert x + y == y && current + x == current;
    } else {
      assert (x + y)[0] == x[0] && (x + y)[1..] == x[1..] + y;
      assert current + x == current + [x[0]] + x[1..];
      PiecesOfWord(x[1..], y, depth + Turn(x[0]), current + [x[0]]);
    }
  }

  /** The first piece is what is there and what follows up to the comma. */
  lemma {:induction false} FirstPiece(s: string, depth: int, current: string)
    ensures var ps := Pieces(s, depth, "");
            Pieces(s, depth, current) == [current + ps[0]] + ps[1..]
    decreases |s|
  {
    if s == "" {
      assert current + "" == current;
    } else if s[0] == ',' && depth == 0 {
      assert current + "" == current;
    } else {
      var d := depth + Turn(s[0]);
      FirstPiece(s[1..], d, current + [s[0]]);
      FirstPiece(s[1..], d, [s[0]]);
      assert "" + [s[0]] == [s[0]];
      assert current + [s[0]] + Pieces(s[1..], d, "")[0] == current + ([s[0]] + Pieces(s[1..], d, "")[0]);
    }
  }

  /** Text with neither brackets nor commas. */
  predicate IsPlain(s: string) {
    forall i :: 0 <= i < |s| ==> Turn(s[i]) == 0 && s[i] != ','
  }

  lemma {:induction false} CallIsOneWord(front: string, inside: string, depth: int)
    requires IsPlain(front) && IsPlain(inside)
    ensures ',' !in front + "(" + inside + ")" && DepthAfter(front + "(" + inside + ")", depth) == depth
  {
    DepthFlat(front, depth);
    DepthFlat(inside, depth + 1);
    DepthConcat(front, "(", depth);
    DepthConcat(front + "(", inside, depth);
    DepthConcat(front + "(" + inside, ")", depth);
    assert DepthAfter("(", depth) == depth + 1 && DepthAfter(")", depth + 1) == depth;
  }

  lemma {:induction false} BlanksAreFlat(s: string, depth: int)
    requires AllBlank(s)
    ensures ',' !in s && DepthAfter(s, depth) == depth
  {
    DepthFlat(s, depth);
  }

  lemma {:induction false} RStripSplits(s: string)
    ensures RStrip(s) <= s && AllBlank(s[|RStrip(s)|..])
  {
    if s != "" && IsBlank(s[|s| - 1]) {
      RStripSplits(s[..|s| - 1]);
      var n := |RStrip(s)|;
      assert s[n..] == s[..|s| - 1][n..] + [s[|s| - 1]];
    }
  }

  lemma {:induction false} SkipBlanksSplits(s: string)
    ensures |SkipBlanks(s)| <= |s| && s[|s| - |SkipBlanks(s)|..] == SkipBlanks(s)
    ensures AllBlank(s[..|s| - |SkipBlanks(s)|])
    ensures SkipBlanks(s) == "" || !IsBlank(SkipBlanks(s)[0])
  {
    if s != "" && IsBlank(s[0]) {
      SkipBlanksSplits(s[1..]);
      var n := |s| - |SkipBlanks(s)|;
      assert s[..n] == [s[0]] + s[1..][..n - 1];
    }
  }

  /** What is stripped is blank, and what is left neither starts nor ends with a blank. */
  lemma {:induction false} StripSplits(s: string) returns (front: string, back: string)
    ensures AllBlank(front) && AllBlank(back) && s == front + Strip(s) + back
    ensures Strip(s) == "" || (!IsBlank(Strip(s)[0]) && !IsBlank(Strip(s)[|Strip(s)| - 1]))
  {
    var r := RStrip(s);
    RStripSplits(s);
    SkipBlanksSplits(r);
    front, back := r[..|r| - |Strip(s)|], s[|r|..];
    assert r == front + Strip(s) && s == r + back;
  }

  /**
    The last piece is blank exactly when the last character that is not blank, before the closing
    parenthesis, is a comma, or there is none.
   */
  lemma LastPieceBlankIff(list: string)
    requires DepthAfter(list, 0) == 0
    ensures AllBlank(LastOf(Items(list))) <==> RStrip(list) == "" || RStrip(list)[|RStrip(list)| - 1] == ','
  {
    var r := RStrip(list);
    RStripSplits(list);
    var blanks := list[|r|..];
    assert list == r + blanks;
    BlanksAreFlat(blanks, DepthAfter(r, 0));
    DepthConcat(r, blanks, 0);
    PiecesConcat(r, blanks, 0, "");
    var ps := Pieces(r, 0, "");
    PiecesOfWord(blanks, "", 0, LastOf(ps));
    assert blanks + "" == blanks;
    assert LastOf(Items(list)) == LastOf(ps) + blanks;
    if r != "" {
      LastPieceEnds(r);
    }
  }

  lemma {:induction false} LastPieceEnds(r: string)
    requires r != "" && DepthAfter(r, 0) == 0 && !IsBlank(r[|r| - 1])
    ensures AllBlank(LastOf(Items(r))) <==> r[|r| - 1] == ','
  {
    var x, c := r[..|r| - 1], r[|r| - 1];
    assert r == x + [c];
    DepthConcat(x, [c], 0);
    PiecesConcat(x, [c], 0, "");
    var q := LastOf(Items(x));
    assert [c][1..] == "";
    assert DepthAfter([c], DepthAfter(x, 0)) == DepthAfter(x, 0) + Turn(c);
    if c == ',' {
      assert Pieces([c], 0, q) == [q] + [""];
    } else {
      assert Pieces([c], DepthAfter(x, 0), q) == [q + [c]];
      assert (q + [c])[|q|] == c;
    }
  }

  /** The text of a piece leads from depth 0 to the depth at the end. */
  lemma {:induction false} DepthOfLastPiece(s: string, depth: int, current: string)
    requires DepthAfter(current, 0) == depth
    ensures DepthAfter(LastOf(Pieces(s, depth, current)), 0) == DepthAfter(s, depth)
    decreases |s|
  {
    if s != "" {
      if s[0] == ',' && depth == 0 {
        DepthOfLastPiece(s[1..], 0, "");
        assert Turn(',') == 0;
      } else {
        DepthConcat(current, [s[0]], 0);
        assert [s[0]][1..] == "";
        assert DepthAfter([s[0]], depth) == depth + Turn(s[0]);
        DepthOfLastPiece(s[1..], depth + Turn(s[0]), current + [s[0]]);
      }
    }
  }

  lemma BlankPieceIsFlat(before: string)
    requires AllBlank(LastOf(Items(before)))
    ensures DepthAfter(before, 0) == 0
  {
    DepthOfLastPiece(before, 0, "");
    BlanksAreFlat(LastOf(Items(before)), 0);
  }

  lemma BlankConcat(a: string, b: string)
    requires AllBlank(a)
    ensures AllBlank(a + b) <==> AllBlank(b)
  {
    if AllBlank(a + b) {
      forall i | 0 <= i < |b| ensures IsBlank(b[i]) {
        assert (a + b)[|a| + i] == b[i];
      }
    }
  }

  lemma PlainIsOnePiece(word: string)
    requires IsPlain(word)
    ensures Items(word) == [word]
  {
    PiecesOfWord(word, "", 0, "");
    assert word + "" == word && "" + word == word;
  }

  /** Read from `depth` on, no bracket closes that was not opened in `s`. */
  predicate Enclosed(s: string, depth: int)
    decreases |s|
  {
    depth >= 0 && (s == "" || Enclosed(s[1..], depth + Turn(s[0])))
  }

  lemma {:induction false} EnclosedConcat(x: string, y: string, depth: int)
    ensures Enclosed(x + y, depth) <==> Enclosed(x, depth) && Enclosed(y, DepthAfter(x, depth))
    decreases |x|
  {
    if x == "" {
      assert x + y == y;
    } else {
      assert (x + y)[0] == x[0] && (x + y)[1..] == x[1..] + y;
      EnclosedConcat(x[1..], y, depth + Turn(x[0]));
    }
  }

  lemma {:induction false} EnclosedFlat(s: string, depth: int)
    requires depth >= 0 && forall i :: 0 <= i < |s| ==> Turn(s[i]) == 0
    ensures Enclosed(s, depth)
    decreases |s|
  {
    if s != "" {
      EnclosedFlat(s[1..], depth);
    }
  }

  lemma {:induction false} EnclosedEnd(s: string, depth: int)
    requires Enclosed(s, depth)
    ensures DepthAfter(s, depth) >= 0
    decreases |s|
  {
    if s != "" {
      EnclosedEnd(s[1..], depth + Turn(s[0]));
    }
  }

  lemma {:induction false} CallIsEnclosed(front: string, inside: string, depth: int)
    requires IsPlain(front) && IsPlain(inside) && depth >= 0
    ensures Enclosed(front + "(" + inside + ")", depth)
  {
    EnclosedFlat(front, depth);
    DepthFlat(front, depth);
    EnclosedFlat(inside, depth + 1);
    DepthFlat(inside, depth + 1);
    assert front + "(" + inside + ")" == front + ("(" + (inside + ")"));
    EnclosedConcat(inside, ")", depth + 1);
    assert ")"[1..] == "" && Enclosed(")", depth + 1);
    assert ("(" + (inside + ")"))[1..] == inside + ")";
    EnclosedConcat(front, "(" + (inside + ")"), depth);
  }
}
