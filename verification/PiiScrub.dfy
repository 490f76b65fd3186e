/** The filter that every Sentry event passes before it leaves the process. */
module PiiScrub {
  import opened Wrappers
  import opened Json

  const PII_KEYS: set<string> := {
    "password", "token", "secret", "authorization", "phone", "email", "aadhaar", "pan",
    "api_key", "access_token", "refresh_token"
  }

  const FILTERED := Str("[Filtered]")

  function LowerChar(c: char): char {
    if 'A' <= c <= 'Z' then c - 'A' + 'a' else c
  }

  function Lower(s: string): string {
    seq(|s|, i requires 0 <= i < |s| => LowerChar(s[i]))
  }

  predicate IsPii(key: string) {
    Lower(key) in PII_KEYS
  }

  /** The words that name personal data, in small letters. */
  predicate IsPiiWord(w: string) {
    || w == "password" || w == "token" || w == "secret" || w == "authorization" || w == "phone" || w == "email"
    || w == "aadhaar" || w == "pan" || w == "api_key" || w == "access_token" || w == "refresh_token"
  }

  /** The same letter, if need be in the other case; code points 65 to 90 are the capitals, 32 below the small ones. */
  predicate SameLetter(c: char, d: char) {
    c == d || (65 <= c as int <= 90 && d as int == c as int + 32) || (65 <= d as int <= 90 && c as int == d as int + 32)
  }

  predicate SameButCase(s: string, w: string) {
    |s| == |w| && forall i :: 0 <= i < |s| ==> SameLetter(s[i], w[i])
  }

  predicate HasCapital(w: string) {
    exists i :: 0 <= i < |w| && 'A' <= w[i] <= 'Z'
  }

  lemma LowerIs(s: string, w: string)
    requires !HasCapital(w)
    ensures Lower(s) == w <==> SameButCase(s, w)
  {
    if SameButCase(s, w) {
      forall i | 0 <= i < |s| ensures LowerChar(s[i]) == w[i] {
        assert !('A' <= w[i] <= 'Z');
      }
    } else if |s| == |w| {
      var i :| 0 <= i < |s| && !SameLetter(s[i], w[i]);
      assert Lower(s)[i] == LowerChar(s[i]);
    }
  }

  lemma LowerHasNoCapital(s: string)
    ensures !HasCapital(Lower(s))
  {
  }

  lemma PiiWordsAreSmall(w: string)
    requires IsPiiWord(w)
    ensures !HasCapital(w)
  {
  }

  /** A key is PII exactly when, letter by letter and whatever the case, it spells one of the eleven words. */
  lemma PiiIff(key: string)
    ensures IsPii(key) <==> exists w :: IsPiiWord(w) && SameButCase(key, w)
  {
    assert forall w :: w in PII_KEYS <==> IsPiiWord(w);
    LowerHasNoCapital(key);
    LowerIs(key, Lower(key));
    forall w | IsPiiWord(w) && SameButCase(key, w) ensures IsPii(key) {
      PiiWordsAreSmall(w);
      LowerIs(key, w);
    }
  }

  /** So case never decides. */
  lemma PiiIgnoresCase(key: string, other: string)
    requires SameButCase(key, other)
    ensures IsPii(key) <==> IsPii(other)
  {
    assert Lower(key) == Lower(other) by {
      forall i | 0 <= i < |key| ensures Lower(key)[i] == Lower(other)[i] {
        assert SameLetter(key[i], other[i]);
      }
    }
  }

  /** `_scrub`: dictionaries and lists are rebuilt, every other value is returned as it is. */
  function Scrub(v: Value): Value {
    match v
    case Dict(m) => Dict(map k | k in m :: if IsPii(k) then FILTERED else Scrub(m[k]))
    case List(xs) => List(seq(|xs|, i requires 0 <= i < |xs| => Scrub(xs[i])))
    case _ => v
  }

  /** Two values are the same to an observer who may not look below PII keys. */
  predicate LowEqual(x: Value, y: Value) {
    match x
    case Dict(m) =>
      && y.Dict? && m.Keys == y.entries.Keys
      && forall k :: k in m && !IsPii(k) ==> LowEqual(m[k], y.entries[k])
    case List(xs) =>
      && y.List? && |xs| == |y.items|
      && forall i :: 0 <= i < |xs| ==> LowEqual(xs[i], y.items[i])
    case _ => x == y
  }

  lemma DictsShowTheirLowParts(x: Value, y: Value)
    requires x.Dict? && y.Dict?
    requires forall k :: k in x.entries && k in y.entries && !IsPii(k) ==>
               (Scrub(x.entries[k]) == Scrub(y.entries[k]) <==> LowEqual(x.entries[k], y.entries[k]))
    ensures Scrub(x) == Scrub(y) <==> LowEqual(x, y)
  {
    var sx, sy := Scrub(x).entries, Scrub(y).entries;
    assert sx.Keys == x.entries.Keys && sy.Keys == y.entries.Keys;
    assert Scrub(x) == Scrub(y) <==> sx == sy;
    SameMap(sx, sy);
    forall k | k in x.entries && k in y.entries
      ensures sx[k] == sy[k] <==> IsPii(k) || LowEqual(x.entries[k], y.entries[k])
    {
    }
  }

  lemma SameMap(m: map<string, Value>, n: map<string, Value>)
    ensures m == n <==> m.Keys == n.Keys && forall k :: k in m && k in n ==> m[k] == n[k]
  {
  }

  lemma ListsShowTheirLowParts(x: Value, y: Value)
    requires x.List? && y.List?
    requires forall i :: 0 <= i < |x.items| && i < |y.items| ==>
               (Scrub(x.items[i]) == Scrub(y.items[i]) <==> LowEqual(x.items[i], y.items[i]))
    ensures Scrub(x) == Scrub(y) <==> LowEqual(x, y)
  {
    var sx, sy := Scrub(x).items, Scrub(y).items;
    assert |sx| == |x.items| && |sy| == |y.items|;
    assert forall i :: 0 <= i < |sx| ==> sx[i] == Scrub(x.items[i]);
    assert forall i :: 0 <= i < |sy| ==> sy[i] == Scrub(y.items[i]);
  }

  /** Noninterference, both ways: the output shows everything outside PII keys and nothing else. */
  lemma {:induction false} ScrubShowsExactlyTheLowPart(x: Value, y: Value)
    ensures Scrub(x) == Scrub(y) <==> LowEqual(x, y)
  {
    if x.Dict? && y.Dict? {
      forall k | k in x.entries && k in y.entries
        ensures Scrub(x.entries[k]) == Scrub(y.entries[k]) <==> LowEqual(x.entries[k], y.entries[k])
      {
        ScrubShowsExactlyTheLowPart(x.entries[k], y.entries[k]);
      }
      DictsShowTheirLowParts(x, y);
    } else if x.List? && y.List? {
      forall i | 0 <= i < |x.items| && i < |y.items|
        ensures Scrub(x.items[i]) == Scrub(y.items[i]) <==> LowEqual(x.items[i], y.items[i])
      {
        ScrubShowsExactlyTheLowPart(x.items[i], y.items[i]);
      }
      ListsShowTheirLowParts(x, y);
    }
  }

  /** Scrubbing twice is scrubbing once. */
  lemma {:induction false} ScrubIsIdempotent(v: Value)
    ensures Scrub(Scrub(v)) == Scrub(v)
  {
    match v
    case Dict(m) =>
      forall k | k in m && !IsPii(k) ensures Scrub(Scrub(m[k])) == Scrub(m[k]) {
        ScrubIsIdempotent(m[k]);
      }
    case List(xs) =>
      forall i | 0 <= i < |xs| ensures Scrub(Scrub(xs[i])) == Scrub(xs[i]) {
        ScrubIsIdempotent(xs[i]);
      }
    case _ =>
  }

  // ---- Places in a value ------------------------------------------------------------------------

  datatype Selector = Key(name: string) | At(index: nat)

  function Select(v: Value, s: Selector): Option<Value> {
    match s
    case Key(k) => if v.Dict? && k in v.entries then Some(v.entries[k]) else None
    case At(i) => if v.List? && i < |v.items| then Some(v.items[i]) else None
  }

  function Get(v: Value, path: seq<Selector>): Option<Value> {
    if path == [] then Some(v)
    else
      var next := Select(v, path[0]);
      if next.None? then None else Get(next.value, path[1..])
  }

  /**
    What scrubbing keeps: along a path that crosses no PII key the same places exist, with the same
    keys and lengths, and the value there is the scrubbed original - a leaf unchanged.
   */
  lemma {:induction false} ScrubKeepsOpenPlaces(v: Value, path: seq<Selector>)
    requires forall i :: 0 <= i < |path| && path[i].Key? ==> !IsPii(path[i].name)
    ensures match Get(v, path)
            case None => Get(Scrub(v), path) == None
            case Some(x) => Get(Scrub(v), path) == Some(Scrub(x))
    decreases |path|
  {
    if path != [] {
      var next := Select(v, path[0]);
      if next.Some? {
        ScrubKeepsOpenPlaces(next.value, path[1..]);
      }
    }
  }

  /** What scrubbing hides: at the first PII key of a path the value is the marker, and nothing lies below. */
  lemma {:induction false} ScrubHidesPiiPlaces(v: Value, path: seq<Selector>, key: string, below: seq<Selector>)
    requires forall i :: 0 <= i < |path| && path[i].Key? ==> !IsPii(path[i].name)
    requires IsPii(key) && Get(v, path + [Key(key)]).Some?
    ensures Get(Scrub(v), path + [Key(key)]) == Some(Str("[Filtered]"))
    ensures below != [] ==> Get(Scrub(v), path + [Key(key)] + below) == None
    decreases |path|
  {
    if path == [] {
      assert ([Key(key)] + below)[1..] == below;
      assert [] + [Key(key)] + below == [Key(key)] + below;
    } else {
      var next := Select(v, path[0]);
      assert (path + [Key(key)])[1..] == path[1..] + [Key(key)];
      assert (path + [Key(key)] + below)[1..] == path[1..] + [Key(key)] + below;
      ScrubHidesPiiPlaces(next.value, path[1..], key, below);
    }
  }

  /** Tuples are returned as they are, so a secret inside one reaches the report. */
  lemma TuplesAreNotScrubbed(secret: Value)
    ensures var event := Dict(map["args" := Tuple([Dict(map["password" := secret])])]);
            Scrub(event) == event
  {
    var event := Dict(map["args" := Tuple([Dict(map["password" := secret])])]);
    assert |Lower("args")| == 4;
    assert forall k :: k in PII_KEYS ==> |k| != 4;
    assert Scrub(event).entries == event.entries;
  }

  /** Wherever a PII key stands, be it inside a tuple, its value is the marker. */
  predicate ShowsNoPii(v: Value) {
    match v
    case Dict(m) => forall k :: k in m ==> if IsPii(k) then m[k] == FILTERED else ShowsNoPii(m[k])
    case List(xs) => forall i :: 0 <= i < |xs| ==> ShowsNoPii(xs[i])
    case Tuple(ps) => forall i :: 0 <= i < |ps| ==> ShowsNoPii(ps[i])
    case _ => true
  }

  /** The tuples that no PII key covers show none to begin with. */
  predicate TuplesShowNoPii(v: Value) {
    match v
    case Dict(m) => forall k :: k in m && !IsPii(k) ==> TuplesShowNoPii(m[k])
    case List(xs) => forall i :: 0 <= i < |xs| ==> TuplesShowNoPii(xs[i])
    case Tuple(_) => ShowsNoPii(v)
    case _ => true
  }

  /** A scrubbed event shows no PII exactly when its tuples did not. */
  lemma {:induction false} ScrubbedShowsNoPiiIff(v: Value)
    ensures ShowsNoPii(Scrub(v)) <==> TuplesShowNoPii(v)
  {
    match v
    case Dict(m) =>
      forall k | k in m && !IsPii(k) ensures ShowsNoPii(Scrub(m[k])) <==> TuplesShowNoPii(m[k]) {
        ScrubbedShowsNoPiiIff(m[k]);
      }
      var n := Scrub(v).entries;
      assert n.Keys == m.Keys && forall k :: k in m ==> n[k] == if IsPii(k) then FILTERED else Scrub(m[k]);
    case List(xs) =>
      forall i | 0 <= i < |xs| ensures ShowsNoPii(Scrub(xs[i])) <==> TuplesShowNoPii(xs[i]) {
        ScrubbedShowsNoPiiIff(xs[i]);
      }
      var ys := Scrub(v).items;
      assert |ys| == |xs| && forall i :: 0 <= i < |xs| ==> ys[i] == Scrub(xs[i]);
    case _ =>
  }
}
