/** Python's rules for the parameters of a function definition, item by item. */
module ParameterLists {

  /** What stands between two commas. `Junk` is anything that is not one of the others. */
  datatype Param =
    | Blank
    | Named(name: string, hasDefault: bool)
    | Args(name: string)
    | BareStar
    | Kwargs(name: string)
    | Slash
    | Junk

  /** What has been read so far. `bare`: a lone star still waits for the name after it. */
  datatype Reading = Reading(names: set<string>, defaults: bool, slash: bool, starred: bool, bare: bool, closed: bool)

  const START := Reading({}, false, false, false, false, false)

  /** The item may come next; nothing may follow `**`, no name comes twice, and defaults come last up to a star. */
  predicate MayFollow(p: Param, r: Reading) {
    match p
    case Blank => true
    case Named(n, d) => !r.closed && n !in r.names && (d || !r.defaults || r.starred)
    case Args(n) => !r.closed && !r.starred && n !in r.names
    case BareStar => !r.closed && !r.starred
    case Kwargs(n) => !r.closed && !r.bare && n !in r.names
    case Slash => !r.closed && !r.starred && !r.slash && r.names != {}
    case Junk => false
  }

  function Next(p: Param, r: Reading): Reading {
    match p
    case Blank => r
    case Named(n, d) => r.(names := r.names + {n}, defaults := r.defaults || d, bare := false)
    case Args(n) => r.(names := r.names + {n}, starred := true)
    case BareStar => r.(starred := true, bare := true)
    case Kwargs(n) => r.(names := r.names + {n}, closed := true)
    case Slash => r.(slash := true)
    case Junk => r
  }

  predicate AllFit(ps: seq<Param>, r: Reading) {
    ps == [] || (MayFollow(ps[0], r) && AllFit(ps[1..], Next(ps[0], r)))
  }

  function After(ps: seq<Param>, r: Reading): Reading {
    if ps == [] then r else After(ps[1..], Next(ps[0], r))
  }

  /** Only a comma at the end may have nothing behind it. */
  predicate NoGaps(ps: seq<Param>) {
    forall i :: 0 <= i < |ps| - 1 ==> ps[i] != Blank
  }

  predicate IsParameterList(ps: seq<Param>) {
    NoGaps(ps) && AllFit(ps, START) && !After(ps, START).bare
  }

  // ---- Adding one parameter with a default -----------------------------------------------------------------

  predicate NoKwargs(ps: seq<Param>) {
    forall i :: 0 <= i < |ps| ==> !ps[i].Kwargs?
  }

  predicate Names(p: Param, name: string) {
    (p.Named? || p.Args? || p.Kwargs?) && p.name == name
  }

  predicate NoneNamed(ps: seq<Param>, name: string) {
    forall i :: 0 <= i < |ps| ==> !Names(ps[i], name)
  }

  predicate HasStar(ps: seq<Param>) {
    exists i :: 0 <= i < |ps| && (ps[i].Args? || ps[i].BareStar?)
  }

  /** A parameter without a default comes before any star. */
  predicate NeedsValueBeforeStar(ps: seq<Param>) {
    ps != [] && !ps[0].Args? && !ps[0].BareStar? && ((ps[0].Named? && !ps[0].hasDefault) || NeedsValueBeforeStar(ps[1..]))
  }

  lemma {:induction false} FitConcat(xs: seq<Param>, ys: seq<Param>, r: Reading)
    ensures AllFit(xs + ys, r) <==> AllFit(xs, r) && AllFit(ys, After(xs, r))
    ensures After(xs + ys, r) == After(ys, After(xs, r))
    decreases |xs|
  {
    if xs == [] {
      assert xs + ys == ys;
    } else {
      assert (xs + ys)[0] == xs[0] && (xs + ys)[1..] == xs[1..] + ys;
      FitConcat(xs[1..], ys, Next(xs[0], r));
    }
  }

  /** What is known of the items from the state behind them. */
  lemma {:induction false} AfterIs(ps: seq<Param>, r: Reading, name: string)
    ensures var e := After(ps, r);
            && (e.closed <==> r.closed || !NoKwargs(ps))
            && (e.starred <==> r.starred || HasStar(ps))
            && (name in e.names <==> name in r.names || !NoneNamed(ps, name))
    decreases |ps|
  {
    if ps != [] {
      AfterIs(ps[1..], Next(ps[0], r), name);
      TailFacts(ps, name);
    }
  }

  lemma TailFacts(ps: seq<Param>, name: string)
    requires ps != []
    ensures NoKwargs(ps) <==> !ps[0].Kwargs? && NoKwargs(ps[1..])
    ensures HasStar(ps) <==> ps[0].Args? || ps[0].BareStar? || HasStar(ps[1..])
    ensures NoneNamed(ps, name) <==> !Names(ps[0], name) && NoneNamed(ps[1..], name)
  {
    assert ps == [ps[0]] + ps[1..];
    assert forall i :: 0 <= i < |ps| - 1 ==> ps[1..][i] == ps[i + 1];
    if HasStar(ps[1..]) {
      var i :| 0 <= i < |ps[1..]| && (ps[1..][i].Args? || ps[1..][i].BareStar?);
      assert ps[i + 1] == ps[1..][i];
    }
  }

  lemma GapsSnoc(ps: seq<Param>, p: Param)
    requires ps != []
    ensures NoGaps(ps + [p]) <==> NoGaps(ps) && ps[|ps| - 1] != Blank
  {
    var all := ps + [p];
    assert forall i :: 0 <= i < |ps| ==> all[i] == ps[i];
    if NoGaps(all) {
      assert all[|ps| - 1] == ps[|ps| - 1];
    }
  }

  /**
    At the end of a list a new parameter with a default is accepted exactly when the list does not end in a
    blank item, has no `**` item, and has no parameter of that name.
   */
  lemma AppendIff(ps: seq<Param>, name: string)
    requires IsParameterList(ps) && ps != []
    ensures IsParameterList(ps + [Named(name, true)]) <==>
            ps[|ps| - 1] != Blank && NoKwargs(ps) && NoneNamed(ps, name)
  {
    var p, r := Named(name, true), After(ps, START);
    GapsSnoc(ps, p);
    FitConcat(ps, [p], START);
    AfterIs(ps, START, name);
    assert [p][1..] == [];
    assert AllFit([p], r) <==> MayFollow(p, r);
    assert After([p], r) == Next(p, r);
  }

  /** The state with the new parameter in it. */
  ghost predicate Widened(r: Reading, r': Reading, name: string) {
    && r'.names == r.names + {name} && r'.defaults && r'.slash == r.slash
    && r'.starred == r.starred && r'.closed == r.closed && (r'.bare ==> r.bare)
  }

  /** Items that fitted before still fit behind a new parameter with a default, under the exact condition. */
  lemma {:induction false} StillFitIff(ps: seq<Param>, r: Reading, r': Reading, name: string)
    requires AllFit(ps, r) && !After(ps, r).bare && Widened(r, r', name)
    ensures (AllFit(ps, r') && !After(ps, r').bare) <==>
            NoneNamed(ps, name) && (r.starred || !NeedsValueBeforeStar(ps))
    decreases |ps|
  {
    if ps != [] {
      var p := ps[0];
      TailFacts(ps, name);
      if MayFollow(p, r') {
        assert Widened(Next(p, r), Next(p, r'), name);
        StillFitIff(ps[1..], Next(p, r), Next(p, r'), name);
      }
    }
  }

  lemma GapsAround(front: seq<Param>, p: Param, back: seq<Param>)
    requires NoGaps(front + back) && p != Blank && back != []
    ensures NoGaps(front + ([p] + back))
  {
    var was, all := front + back, front + ([p] + back);
    forall i | 0 <= i < |all| - 1 ensures all[i] != Blank {
      if i < |front| {
        assert all[i] == was[i];
      } else if i > |front| {
        assert all[i] == was[i - 1];
      }
    }
  }

  /**
    Between two parts of a list it is accepted exactly when no `**` item comes before it, no parameter has its
    name, and no parameter without a default follows before a star.
   */
  lemma InsertIff(front: seq<Param>, back: seq<Param>, name: string)
    requires IsParameterList(front + back) && back != []
    ensures IsParameterList(front + ([Named(name, true)] + back)) <==>
            && NoKwargs(front) && NoneNamed(front, name) && NoneNamed(back, name)
            && (HasStar(front) || !NeedsValueBeforeStar(back))
  {
    var p, r := Named(name, true), After(front, START);
    GapsAround(front, p, back);
    FitConcat(front, back, START);
    FitConcat(front, [p] + back, START);
    AfterIs(front, START, name);
    assert ([p] + back)[1..] == back;
    if MayFollow(p, r) {
      StillFitIff(back, r, Next(p, r), name);
    }
  }
}
