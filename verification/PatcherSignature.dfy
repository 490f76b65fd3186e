/**
  Whether a patched signature is still a signature. The text of a parameter list is cut at the commas outside
  brackets, each item is read for its stars, its name and its default, and the items have to obey Python's rules.
 */
module PatcherSignature {
  import opened Text
  import opened CommaLists
  import opened ParameterLists
  import opened Patcher

  /** A default: an equals sign outside brackets. */
  predicate HasDefault(p: string, depth: int)
    decreases |p|
  {
    p != "" && ((p[0] == '=' && depth == 0) || HasDefault(p[1..], depth + Turn(p[0])))
  }

  /** The word a text begins with. */
  function WordOf(s: string): string {
    s[..|s| - |SkipWord(s)|]
  }

  /** A name, and then nothing, an annotation or a default; what these hold is not read. */
  predicate BeginsWithName(s: string) {
    var rest := SkipBlanks(SkipWord(s));
    WordOf(s) != "" && !('0' <= s[0] <= '9') && (rest == "" || rest[0] == ':' || rest[0] == '=')
  }

  function ReadName(s: string): Param {
    if BeginsWithName(s) then Named(WordOf(s), HasDefault(s, 0)) else Junk
  }

  /** Behind one star or two there is a name without a default. */
  function ReadStarred(s: string, double: bool): Param {
    match ReadName(s)
    case Named(n, false) => if double then Kwargs(n) else Args(n)
    case _ => Junk
  }

  function Read(item: string): Param {
    var s := SkipBlanks(item);
    if s == "" then Blank
    else if s[0] == '*' then
      if |s| > 1 && s[1] == '*' then ReadStarred(SkipBlanks(s[2..]), true)
      else if SkipBlanks(s[1..]) == "" then BareStar
      else ReadStarred(SkipBlanks(s[1..]), false)
    else if s[0] == '/' then if SkipBlanks(s[1..]) == "" then Slash else Junk
    else ReadName(s)
  }

  function Reads(items: seq<string>): (ps: seq<Param>)
    ensures |ps| == |items| && forall i :: 0 <= i < |ps| ==> ps[i] == Read(items[i])
  {
    seq(|items|, i requires 0 <= i < |items| => Read(items[i]))
  }

  function ParamsOf(list: string): (ps: seq<Param>)
    ensures ps != []
  {
    Reads(Items(list))
  }

  /** The brackets of a list close in it, and its items are a parameter list. */
  predicate WellFormed(list: string) {
    Enclosed(list, 0) && DepthAfter(list, 0) == 0 && IsParameterList(ParamsOf(list))
  }

  /** The piece is the auth parameter, up to blanks around it. */
  predicate IsTheParameter(piece: string) {
    SkipBlanks(RStrip(piece)) == PARAMETER
  }

  const CALLEE := "u: UserContext = Depends"
  const ARGUMENT := "require_super_admin"

  lemma ParameterText()
    ensures PARAMETER == CALLEE + "(" + ARGUMENT + ")"
  {
  }

  lemma ParameterIsPlain()
    ensures IsPlain(CALLEE) && IsPlain(ARGUMENT)
  {
  }

  lemma {:induction false} ParameterIsOneWord(depth: int)
    ensures ',' !in PARAMETER && DepthAfter(PARAMETER, depth) == depth
  {
    ParameterText();
    ParameterIsPlain();
    CallIsOneWord(CALLEE, ARGUMENT, depth);
  }

  // ---- Blanks -------------------------------------------------------------------------------------------

  lemma {:induction false} SkipBlanksPast(b: string, y: string)
    requires AllBlank(b)
    ensures SkipBlanks(b + y) == SkipBlanks(y)
  {
    if b == "" {
      assert b + y == y;
    } else {
      assert (b + y)[1..] == b[1..] + y;
      SkipBlanksPast(b[1..], y);
    }
  }

  lemma {:induction false} SkipBlanksStops(q: string, y: string)
    requires !AllBlank(q)
    ensures |SkipBlanks(q + y)| > |y|
  {
    if IsBlank(q[0]) {
      assert (q + y)[1..] == q[1..] + y;
      assert !AllBlank(q[1..]);
      SkipBlanksStops(q[1..], y);
    }
  }

  lemma {:induction false} RStripKeeps(y: string, z: string)
    requires y != "" && !IsBlank(y[|y| - 1])
    ensures y <= RStrip(y + z)
    decreases |z|
  {
    var s := y + z;
    if z == "" {
      assert s == y;
    } else if IsBlank(s[|s| - 1]) {
      assert s[..|s| - 1] == y + z[..|z| - 1];
      RStripKeeps(y, z[..|z| - 1]);
    }
  }

  /** A piece that starts with blanks and then the parameter is the parameter. */
  lemma JustTheParameter(b: string)
    requires AllBlank(b)
    ensures IsTheParameter(b + PARAMETER)
  {
    var p := b + PARAMETER;
    assert PARAMETER[0] == 'u' && PARAMETER[|PARAMETER| - 1] == ')';
    assert p[|p| - 1] == ')';
    assert RStrip(p) == p;
    SkipBlanksPast(b, PARAMETER);
  }

  /** A piece that starts with something else is not. */
  lemma MoreThanTheParameter(q: string, b: string, piece: string)
    requires !AllBlank(q) && q + b + PARAMETER <= piece
    ensures !IsTheParameter(piece)
  {
    var y := q + b + PARAMETER;
    assert PARAMETER[|PARAMETER| - 1] == ')';
    assert y[|y| - 1] == ')';
    assert piece == y + piece[|y|..];
    RStripKeeps(y, piece[|y|..]);
    var s := RStrip(piece);
    assert s == q + s[|q|..];
    SkipBlanksStops(q, s[|q|..]);
  }

  lemma {:induction false} SkipBlanksIsEmptyIff(s: string)
    ensures SkipBlanks(s) == "" <==> AllBlank(s)
  {
    if s != "" && IsBlank(s[0]) {
      SkipBlanksIsEmptyIff(s[1..]);
      assert s == [s[0]] + s[1..];
      BlankConcat([s[0]], s[1..]);
    }
  }

  /** Blanks in front of an item do not matter. */
  lemma ReadPast(b: string, item: string)
    requires AllBlank(b)
    ensures Read(b + item) == Read(item)
  {
    SkipBlanksPast(b, item);
  }

  lemma ReadBlankIff(item: string)
    ensures Read(item) == Blank <==> AllBlank(item)
  {
    SkipBlanksIsEmptyIff(item);
  }

  lemma {:induction false} SkipWordPast(w: string, rest: string)
    requires (forall i :: 0 <= i < |w| ==> IsWord(w[i])) && (rest == "" || !IsWord(rest[0]))
    ensures SkipWord(w + rest) == rest
  {
    if w == "" {
      assert w + rest == rest;
    } else {
      assert (w + rest)[1..] == w[1..] + rest;
      SkipWordPast(w[1..], rest);
    }
  }

  lemma {:induction false} ReadNamed(name: string, rest: string)
    requires IsName(name) && (rest == "" || rest[0] == ':' || rest[0] == '=')
    ensures ReadName(name + rest) == Named(name, HasDefault(name + rest, 0))
  {
    var s := name + rest;
    SkipWordPast(name, rest);
    assert s[..|s| - |rest|] == name;
    assert SkipBlanks(rest) == rest;
  }

  lemma {:induction false} DefaultAt(front: string, back: string, depth: int)
    requires DepthAfter(front, depth) == 0
    ensures HasDefault(front + "=" + back, depth)
    decreases |front|
  {
    var p := front + "=" + back;
    if front == "" {
      assert p[0] == '=';
    } else {
      assert p[0] == front[0] && p[1..] == front[1..] + "=" + back;
      DefaultAt(front[1..], back, depth + Turn(front[0]));
    }
  }

  const NAME := "u: UserContext "
  const DEFAULT := " Depends(require_super_admin)"

  lemma ParameterParts()
    ensures PARAMETER == NAME + "=" + DEFAULT && PARAMETER[0] == 'u'
  {
  }

  lemma NameIsPlain()
    ensures IsPlain(NAME)
  {
  }

  lemma {:induction false} DefaultAfterBlanks(b: string, name: string, back: string)
    requires AllBlank(b) && IsPlain(name)
    ensures HasDefault(b + (name + "=" + back), 0)
  {
    BlanksAreFlat(b, 0);
    DepthFlat(name, 0);
    DepthConcat(b, name, 0);
    DefaultAt(b + name, back, 0);
    assert b + (name + "=" + back) == b + name + "=" + back;
  }

  const TAIL := PARAMETER[1..]

  lemma ParameterNamed()
    ensures PARAMETER == "u" + TAIL && TAIL != "" && TAIL[0] == ':'
  {
    assert PARAMETER[0] == 'u' && PARAMETER[1] == ':';
    assert PARAMETER == [PARAMETER[0]] + PARAMETER[1..];
  }

  /** The auth parameter is named `u` and has a default. */
  lemma {:induction false} ParameterReads(b: string)
    requires AllBlank(b)
    ensures Read(b + PARAMETER) == Named("u", true)
  {
    ReadPast(b, PARAMETER);
    ParameterNamed();
    ParameterParts();
    NameIsPlain();
    DefaultAfterBlanks("", NAME, DEFAULT);
    assert "" + PARAMETER == PARAMETER;
    ReadNamed("u", TAIL);
    assert SkipBlanks(PARAMETER) == PARAMETER;
  }

  lemma ReadsConcat(xs: seq<string>, ys: seq<string>)
    ensures Reads(xs + ys) == Reads(xs) + Reads(ys)
  {
  }

  // ---- One-line signatures --------------------------------------------------------------------------------

  /** The rewriting of a plain one-line signature adds the parameter at the end of its list. */
  lemma {:induction false} OneLineRewrites(head: string, list: string)
    ensures AddParameter(head + "(" + list + "):") == head + "(" + (list + ", " + PARAMETER) + "):"
  {
    var start := head + "(" + list;
    assert start + "):" == head + "(" + list + "):";
    PlainCloseRewrites(start);
    RegroupRewritten(head + "(", list, PARAMETER);
  }

  lemma {:induction false} PlainCloseRewrites(start: string)
    ensures AddParameter(start + "):") == start + ", " + PARAMETER + "):"
  {
    var line, t := start + "):", start + ")";
    StripsNothing(line);
    StripsNothing(t);
    assert line[..|line| - 1] == t && t[..|t| - 1] == start;
  }

  lemma StripsNothing(s: string)
    requires s != "" && !IsBlank(s[|s| - 1])
    ensures RStrip(s) == s
  {
  }

  lemma RegroupRewritten(front: string, list: string, parameter: string)
    ensures front + list + ", " + parameter + "):" == front + (list + ", " + parameter) + "):"
  {
  }

  lemma {:induction false} OneLinePieces(list: string)
    requires DepthAfter(list, 0) == 0
    ensures Items(list + ", " + PARAMETER) == Items(list) + [" " + PARAMETER]
  {
    ParameterIsOneWord(0);
    OneMoreItem(list, PARAMETER);
  }

  lemma {:induction false} OneMoreItem(list: string, word: string)
    requires DepthAfter(list, 0) == 0 && ',' !in word && DepthAfter(word, 0) == 0
    ensures Items(list + ", " + word) == Items(list) + [" " + word]
  {
    var ps, tail := Items(list), ", " + word;
    assert list + ", " + word == list + tail;
    PiecesConcat(list, tail, 0, "");
    assert tail[1..] == " " + word;
    assert Pieces(tail, 0, LastOf(ps)) == [LastOf(ps)] + Pieces(" " + word, 0, "");
    PiecesOfWord(" " + word, "", 0, "");
    assert " " + word + "" == " " + word && "" + (" " + word) == " " + word;
    assert FrontOf(ps) + [LastOf(ps)] == ps;
  }

  /** The parameter, and a comma before it, are closed in themselves. */
  lemma {:induction false} ParameterIsEnclosed(depth: int)
    requires depth >= 0
    ensures Enclosed(PARAMETER, depth) && Enclosed(", " + PARAMETER, depth) && DepthAfter(", " + PARAMETER, depth) == depth
  {
    ParameterText();
    ParameterIsPlain();
    CallIsEnclosed(CALLEE, ARGUMENT, depth);
    ParameterIsOneWord(depth);
    EnclosedFlat(", ", depth);
    DepthFlat(", ", depth);
    EnclosedConcat(", ", PARAMETER, depth);
    DepthConcat(", ", PARAMETER, depth);
  }

  /**
    A well-formed one-line list stays well formed exactly when its last item is not blank, it has no `**` item,
    and none of its parameters is named `u`.
   */
  lemma {:induction false} OneLineStaysWellFormedIff(list: string)
    requires WellFormed(list)
    ensures WellFormed(list + ", " + PARAMETER) <==>
            && !AllBlank(LastOf(Items(list)))
            && NoKwargs(ParamsOf(list)) && NoneNamed(ParamsOf(list), "u")
  {
    var ps := ParamsOf(list);
    ListGrows(list);
    ReadBlankIff(LastOf(Items(list)));
    AppendIff(ps, "u");
  }

  /** One more parameter at the end: the brackets stay closed and the items are those before and `u`. */
  lemma {:induction false} ListGrows(list: string)
    requires Enclosed(list, 0) && DepthAfter(list, 0) == 0
    ensures var more := list + ", " + PARAMETER;
            Enclosed(more, 0) && DepthAfter(more, 0) == 0 && ParamsOf(more) == ParamsOf(list) + [Named("u", true)]
  {
    GrownIsEnclosed(list);
    OneLinePieces(list);
    ParameterReads(" ");
    ReadsSnoc(Items(list), " " + PARAMETER);
  }

  lemma {:induction false} GrownIsEnclosed(list: string)
    requires Enclosed(list, 0) && DepthAfter(list, 0) == 0
    ensures Enclosed(list + ", " + PARAMETER, 0) && DepthAfter(list + ", " + PARAMETER, 0) == 0
  {
    ParameterIsEnclosed(0);
    EnclosedGrows(list, ", ", PARAMETER);
  }

  lemma {:induction false} EnclosedGrows(list: string, comma: string, word: string)
    requires Enclosed(list, 0) && DepthAfter(list, 0) == 0
    requires Enclosed(comma + word, 0) && DepthAfter(comma + word, 0) == 0
    ensures Enclosed(list + comma + word, 0) && DepthAfter(list + comma + word, 0) == 0
  {
    assert list + comma + word == list + (comma + word);
    EnclosedConcat(list, comma + word, 0);
    DepthConcat(list, comma + word, 0);
  }

  lemma ReadsSnoc(items: seq<string>, item: string)
    ensures Reads(items + [item]) == Reads(items) + [Read(item)]
  {
  }

  /** A list that is one word. */
  lemma {:induction false} OneItem(word: string)
    requires IsPlain(word)
    ensures Enclosed(word, 0) && DepthAfter(word, 0) == 0 && ParamsOf(word) == [Read(word)]
  {
    EnclosedFlat(word, 0);
    DepthFlat(word, 0);
    PlainIsOnePiece(word);
  }

  lemma OneParam(p: Param)
    ensures IsParameterList([p]) <==> MayFollow(p, START) && !Next(p, START).bare
  {
    assert [p][1..] == [] && NoGaps([p]);
    assert AllFit([p], START) <==> MayFollow(p, START) && AllFit([], Next(p, START));
    assert After([p], START) == After([], Next(p, START)) == Next(p, START);
  }

  /** A handler without parameters ends up with a comma after its opening parenthesis. */
  lemma {:induction false} EmptyParameterListBreaks(head: string)
    ensures AddParameter(head + "(" + "" + "):") == head + "(" + ("" + ", " + PARAMETER) + "):"
    ensures WellFormed("") && !WellFormed("" + ", " + PARAMETER)
  {
    OneLineRewrites(head, "");
    OneItem("");
    OneParam(Blank);
    assert Read("") == Blank;
    OneLineStaysWellFormedIff("");
  }

  /** A list with a trailing comma ends up with two commas in a row. */
  lemma {:induction false} TrailingCommaBreaks(head: string, list: string)
    requires WellFormed(list + ",") && DepthAfter(list, 0) == 0
    ensures AddParameter(head + "(" + (list + ",") + "):") == head + "(" + (list + "," + ", " + PARAMETER) + "):"
    ensures !WellFormed(list + "," + ", " + PARAMETER)
  {
    OneLineRewrites(head, list + ",");
    EndsInBlankItem(list);
    OneLineStaysWellFormedIff(list + ",");
  }

  lemma {:induction false} EndsInBlankItem(list: string)
    requires DepthAfter(list, 0) == 0
    ensures AllBlank(LastOf(Items(list + ",")))
  {
    var l := list + ",";
    DepthConcat(list, ",", 0);
    assert DepthAfter(",", 0) == 0;
    assert l[|l| - 1] == ',' && RStrip(l) == l;
    LastPieceBlankIff(l);
  }

  /** Behind `**kwargs` no parameter may come. */
  lemma {:induction false} KwargsBreaks(name: string)
    requires IsName(name)
    ensures WellFormed("**" + name) && !WellFormed("**" + name + ", " + PARAMETER)
  {
    KwargsReads(name);
    OneItem("**" + name);
    OneParam(Kwargs(name));
    OneLineStaysWellFormedIff("**" + name);
  }

  lemma {:induction false} NoDefaultInName(s: string, depth: int)
    requires forall i :: 0 <= i < |s| ==> s[i] != '='
    ensures !HasDefault(s, depth)
    decreases |s|
  {
    if s != "" {
      NoDefaultInName(s[1..], depth + Turn(s[0]));
    }
  }

  lemma {:induction false} KwargsReads(name: string)
    requires IsName(name)
    ensures IsPlain("**" + name) && Read("**" + name) == Kwargs(name)
  {
    var item := "**" + name;
    assert item[0] == '*' && item[1] == '*' && item[2..] == name;
    assert SkipBlanks(item) == item;
    ReadNamed(name, "");
    assert name + "" == name;
    NoDefaultInName(name, 0);
    assert SkipBlanks(name) == name;
  }

  /** A parameter that is named `u` already gets a namesake. */
  lemma {:induction false} NamesakeBreaks(annotation: string)
    requires IsPlain(annotation) && '=' !in annotation
    ensures WellFormed("u" + (":" + annotation)) && !WellFormed("u" + (":" + annotation) + ", " + PARAMETER)
  {
    var list := "u" + (":" + annotation);
    ReadNamed("u", ":" + annotation);
    NoDefaultInName(list, 0);
    assert SkipBlanks(list) == list;
    assert IsPlain(list);
    OneItem(list);
    OneParam(Named("u", false));
    OneLineStaysWellFormedIff(list);
  }

  lemma BlanksTurnNothing(b: string)
    requires AllBlank(b)
    ensures forall i :: 0 <= i < |b| ==> Turn(b[i]) == 0
  {
  }

  // ---- Multi-line signatures --------------------------------------------------------------------------------

  /** Lines joined again. */
  function Join(lines: seq<string>): string
    requires lines != []
  {
    if |lines| == 1 then lines[0] else Join(lines[..|lines| - 1]) + "\n" + lines[|lines| - 1]
  }

  /** The list of a multi-line signature: what precedes its closing line, and what that line adds. */
  function ListOf(before: string, closing: string): string {
    before + "\n" + closing
  }

  function PatchedList(before: string, indent: string, closing: string): string {
    before + "\n" + (indent + PARAMETER + ",") + "\n" + closing
  }

  lemma JoinSnoc(lines: seq<string>, x: string)
    requires lines != []
    ensures Join(lines + [x]) == Join(lines) + "\n" + x
  {
    assert (lines + [x])[..|lines|] == lines;
  }

  /** The inserted line puts the parameter between the lines before the closing one and the closing one. */
  lemma InsertionPatchesList(lines: seq<string>, d: nat, head: string, before: string, closing: string, tail: string)
    requires d < |lines| && SignatureEdit(lines, d).Insertion?
    requires var e := SignatureEdit(lines, d).at;
             Join(lines[d..e]) == head + "(" + before && lines[e] == closing + ")" + tail
    ensures var edit := SignatureEdit(lines, d);
            && Join(lines[d..edit.at + 1]) == head + "(" + ListOf(before, closing) + ")" + tail
            && Join(Apply(lines, edit)[d..edit.at + 2])
               == head + "(" + PatchedList(before, LeadingBlanks(lines[d]) + "    ", closing) + ")" + tail
  {
    var edit := SignatureEdit(lines, d);
    var e, xs := edit.at, lines[d..edit.at];
    assert lines[d..e + 1] == xs + [lines[e]];
    JoinSnoc(xs, lines[e]);
    var after := Apply(lines, edit);
    assert after[d..e + 2] == xs + [edit.text] + [lines[e]];
    JoinSnoc(xs, edit.text);
    JoinSnoc(xs + [edit.text], lines[e]);
    RegroupList(head, before, closing, tail);
    RegroupPatched(head, before, edit.text, closing, tail);
  }

  lemma RegroupList(head: string, before: string, closing: string, tail: string)
    ensures head + "(" + before + "\n" + (closing + ")" + tail) == head + "(" + ListOf(before, closing) + ")" + tail
  {
  }

  lemma RegroupPatched(head: string, before: string, x: string, closing: string, tail: string)
    ensures head + "(" + before + "\n" + x + "\n" + (closing + ")" + tail)
            == head + "(" + (before + "\n" + x + "\n" + closing) + ")" + tail
  {
  }

  /** The piece in which the parameter ends up. */
  function InsertedPiece(before: string, indent: string, closing: string): string
    requires |Items(before)| <= |Items(PatchedList(before, indent, closing))|
  {
    Items(PatchedList(before, indent, closing))[|Items(before)| - 1]
  }

  lemma {:induction false} PatchedPieces(before: string, indent: string, closing: string)
    requires AllBlank(indent)
    ensures var ps := Items(before);
            var word := "\n" + indent + PARAMETER;
            Items(PatchedList(before, indent, closing))
            == FrontOf(ps) + Pieces(",\n" + closing, DepthAfter(before, 0), LastOf(ps) + word)
  {
    RegroupInserted(before, indent, PARAMETER, closing);
    WordIsOne(indent, DepthAfter(before, 0));
    PiecesThroughWord(before, "\n" + indent + PARAMETER, ",\n" + closing);
  }

  lemma RegroupInserted(before: string, indent: string, word: string, closing: string)
    ensures before + "\n" + (indent + word + ",") + "\n" + closing == before + ("\n" + indent + word + (",\n" + closing))
  {
  }

  lemma {:induction false} PiecesThroughWord(before: string, word: string, rest: string)
    requires ',' !in word && DepthAfter(word, DepthAfter(before, 0)) == DepthAfter(before, 0)
    ensures var ps := Items(before);
            Items(before + (word + rest)) == FrontOf(ps) + Pieces(rest, DepthAfter(before, 0), LastOf(ps) + word)
  {
    PiecesConcat(before, word + rest, 0, "");
    PiecesOfWord(word, rest, DepthAfter(before, 0), LastOf(Items(before)));
  }

  lemma WordIsOne(indent: string, depth: int)
    requires AllBlank(indent)
    ensures var word := "\n" + indent + PARAMETER; ',' !in word && DepthAfter(word, depth) == depth
  {
    var blanks := "\n" + indent;
    assert AllBlank(blanks);
    BlanksAreFlat(blanks, depth);
    ParameterIsOneWord(depth);
    DepthConcat(blanks, PARAMETER, depth);
  }

  /**
    The parameter stands on its own exactly when the lines before the closing one end outside brackets
    and in a comma, or hold nothing at all.
   */
  lemma ParameterStandsIff(before: string, indent: string, closing: string)
    requires AllBlank(indent)
    ensures |Items(before)| <= |Items(PatchedList(before, indent, closing))|
    ensures IsTheParameter(InsertedPiece(before, indent, closing)) <==>
            DepthAfter(before, 0) == 0 && AllBlank(LastOf(Items(before)))
  {
    var ps, word, rest := Items(before), "\n" + indent + PARAMETER, ",\n" + closing;
    var d, q := DepthAfter(before, 0), LastOf(Items(before));
    PatchedPieces(before, indent, closing);
    var ys := Pieces(rest, d, q + word);
    assert InsertedPiece(before, indent, closing) == ys[0];
    assert q + word <= ys[0];
    if AllBlank(q) {
      BlankPieceIsFlat(before);
      assert rest[0] == ',' && ys[0] == q + word;
      var b := q + "\n" + indent;
      assert q + word == b + PARAMETER;
      JustTheParameter(b);
    } else {
      assert q + word == q + ("\n" + indent) + PARAMETER;
      MoreThanTheParameter(q, "\n" + indent, ys[0]);
    }
  }

  /** The pieces before and after the patch, when the parameter stands on its own. */
  lemma StandingPieces(before: string, indent: string, closing: string)
    requires AllBlank(indent) && AllBlank(LastOf(Items(before)))
    ensures var ps, qs := Items(before), Items("\n" + closing);
            && Items(ListOf(before, closing)) == FrontOf(ps) + ([LastOf(ps) + qs[0]] + qs[1..])
            && Items(PatchedList(before, indent, closing))
               == FrontOf(ps) + ([LastOf(ps) + ("\n" + indent + PARAMETER)] + qs)
  {
    var ps, qs := Items(before), Items("\n" + closing);
    BlankPieceIsFlat(before);
    assert ListOf(before, closing) == before + ("\n" + closing);
    PiecesConcat(before, "\n" + closing, 0, "");
    FirstPiece("\n" + closing, 0, LastOf(ps));
    PatchedPieces(before, indent, closing);
    var rest := ",\n" + closing;
    assert rest[1..] == "\n" + closing;
  }

  lemma {:induction false} StandingParams(before: string, indent: string, closing: string)
    requires AllBlank(indent) && AllBlank(LastOf(Items(before)))
    ensures var front, back := Reads(FrontOf(Items(before))), ParamsOf("\n" + closing);
            && ParamsOf(ListOf(before, closing)) == front + back
            && ParamsOf(PatchedList(before, indent, closing)) == front + ([Named("u", true)] + back)
  {
    var ps, qs := Items(before), Items("\n" + closing);
    var last, word := LastOf(ps), "\n" + indent + PARAMETER;
    StandingPieces(before, indent, closing);
    ReadsConcat(FrontOf(ps), [last + qs[0]] + qs[1..]);
    ReadsConcat(FrontOf(ps), [last + word] + qs);
    ReadPast(last, qs[0]);
    assert Reads([last + qs[0]] + qs[1..]) == Reads(qs);
    var b := last + "\n" + indent;
    assert last + word == b + PARAMETER;
    ParameterReads(b);
    ReadsConcat([last + word], qs);
    assert Reads([last + word]) == [Named("u", true)];
  }

  /** The inserted line leaves the brackets as they were. */
  lemma {:induction false} PatchedIsEnclosed(before: string, indent: string, closing: string)
    requires AllBlank(indent) && Enclosed(ListOf(before, closing), 0)
    ensures Enclosed(PatchedList(before, indent, closing), 0)
    ensures DepthAfter(PatchedList(before, indent, closing), 0) == DepthAfter(ListOf(before, closing), 0)
  {
    var d, last := DepthAfter(before, 0), "\n" + closing;
    var blanks, line := "\n" + indent, "\n" + indent + PARAMETER + ",";
    assert ListOf(before, closing) == before + last;
    assert PatchedList(before, indent, closing) == before + (line + last);
    EnclosedConcat(before, last, 0);
    DepthConcat(before, last, 0);
    EnclosedEnd(before, 0);
    ParameterIsEnclosed(d);
    ParameterIsOneWord(d);
    BlanksTurnNothing(blanks);
    EnclosedFlat(blanks, d);
    DepthFlat(blanks, d);
    assert line == blanks + (PARAMETER + ",");
    EnclosedFlat(",", d);
    DepthFlat(",", d);
    EnclosedConcat(PARAMETER, ",", d);
    DepthConcat(PARAMETER, ",", d);
    EnclosedConcat(blanks, PARAMETER + ",", d);
    DepthConcat(blanks, PARAMETER + ",", d);
    EnclosedConcat(line, last, d);
    DepthConcat(line, last, d);
    EnclosedConcat(before, line + last, 0);
    DepthConcat(before, line + last, 0);
  }

  /**
    What the code has to find for the inserted line to be right: the lines before the closing one end outside
    brackets in a comma, or hold nothing; no `**` item comes before and no parameter is named `u`; and the closing
    line adds no parameter without a default, unless behind a star.
   */
  predicate TakesALine(before: string, closing: string) {
    var front, back := Reads(FrontOf(Items(before))), ParamsOf("\n" + closing);
    && DepthAfter(before, 0) == 0 && AllBlank(LastOf(Items(before)))
    && NoKwargs(front) && NoneNamed(front, "u") && NoneNamed(back, "u")
    && (HasStar(front) || !NeedsValueBeforeStar(back))
  }

  /** A well-formed multi-line signature stays well formed, with the parameter on its own, exactly then. */
  lemma {:induction false} MultiLineStaysWellFormedIff(before: string, indent: string, closing: string)
    requires AllBlank(indent) && WellFormed(ListOf(before, closing))
    ensures |Items(before)| <= |Items(PatchedList(before, indent, closing))|
    ensures WellFormed(PatchedList(before, indent, closing)) && IsTheParameter(InsertedPiece(before, indent, closing))
            <==> TakesALine(before, closing)
  {
    ParameterStandsIff(before, indent, closing);
    if AllBlank(LastOf(Items(before))) {
      PatchedIsEnclosed(before, indent, closing);
      StandingParams(before, indent, closing);
      InsertIff(Reads(FrontOf(Items(before))), ParamsOf("\n" + closing), "u");
    }
  }

  /** Without a comma after the last parameter the new one runs into it: `r: Request` and `)` on the next line. */
  lemma MissingCommaBreaks(word: string, indent: string, closing: string)
    requires IsPlain(word) && !AllBlank(word) && AllBlank(indent)
    ensures |Items(word)| <= |Items(PatchedList(word, indent, closing))|
    ensures !IsTheParameter(InsertedPiece(word, indent, closing))
  {
    PlainIsOnePiece(word);
    ParameterStandsIff(word, indent, closing);
  }

  /** A parameter without a default on the closing line ends up after one with a default. */
  lemma {:induction false} RequiredOnClosingLineBreaks(indent: string, name: string)
    requires AllBlank(indent) && IsName(name) && name != "u"
    ensures WellFormed(ListOf("", name)) && !WellFormed(PatchedList("", indent, name))
  {
    var line := "\n" + name;
    assert ListOf("", name) == line;
    NameReads(name);
    ReadPast("\n", name);
    assert IsPlain(line);
    OneItem(line);
    OneParam(Named(name, false));
    EmptyFront();
    assert NeedsValueBeforeStar([Named(name, false)]);
    MultiLineStaysWellFormedIff("", indent, name);
    ParameterStandsIff("", indent, name);
  }

  lemma EmptyFront()
    ensures Items("") == [""] && Reads(FrontOf(Items(""))) == [] && AllBlank(LastOf(Items("")))
  {
    PlainIsOnePiece("");
  }

  lemma {:induction false} NameReads(name: string)
    requires IsName(name)
    ensures IsPlain(name) && Read(name) == Named(name, false)
  {
    ReadNamed(name, "");
    assert name + "" == name;
    NoDefaultInName(name, 0);
    assert SkipBlanks(name) == name;
  }

  /** A line with `**kwargs,` before the closing one: the parameter comes behind it. */
  lemma {:induction false} KwargsLineBreaks(name: string, indent: string)
    requires IsName(name) && AllBlank(indent)
    ensures WellFormed(ListOf("**" + name + ",", "")) && !WellFormed(PatchedList("**" + name + ",", indent, ""))
  {
    var word := "**" + name;
    var before := word + ",";
    KwargsReads(name);
    TrailingItems(word);
    BlankPieceIsFlat(before);
    assert Reads(FrontOf(Items(before)))[0] == Kwargs(name);
    KwargsLineOriginal(word, name);
    MultiLineStaysWellFormedIff(before, indent, "");
    ParameterStandsIff(before, indent, "");
  }

  lemma {:induction false} TrailingItems(word: string)
    requires IsPlain(word)
    ensures Items(word + ",") == [word, ""] && Reads(FrontOf(Items(word + ","))) == [Read(word)]
  {
    PlainIsOnePiece(word);
    DepthFlat(word, 0);
    PiecesConcat(word, ",", 0, "");
    assert ","[1..] == "";
    assert Pieces(",", 0, word) == [word] + [""];
  }

  lemma {:induction false} KwargsLineOriginal(word: string, name: string)
    requires IsPlain(word) && Read(word) == Kwargs(name)
    ensures WellFormed(ListOf(word + ",", ""))
  {
    var list := ListOf(word + ",", "");
    var blank := "\n";
    assert list == word + ("," + blank);
    assert forall i :: 0 <= i < |list| ==> Turn(list[i]) == 0;
    EnclosedFlat(list, 0);
    DepthFlat(list, 0);
    DepthFlat(word, 0);
    PlainIsOnePiece(word);
    PiecesConcat(word, "," + blank, 0, "");
    assert ("," + blank)[1..] == blank;
    PlainIsOnePiece(blank);
    assert Items(list) == [word, blank];
    ReadBlankIff(blank);
    var ps := [Kwargs(name), Blank];
    assert ParamsOf(list) == ps;
    assert ps[1..] == [Blank] && [Blank][1..] == [];
    assert AllFit([Blank], Next(Kwargs(name), START));
    assert After([Blank], Next(Kwargs(name), START)) == Next(Kwargs(name), START);
  }
}
