/**
  The fixer against its purpose: each finding stands for one handler, and the fix is meant for that
  handler only. Here a file is a head followed by one block of lines per finding.
 */
module PatcherBlocks {
  import opened Sequences
  import opened Patcher
  import opened PatcherSafety

  /** The lines from one reported line up to the next. */
  datatype Block = Block(severity: Severity, lines: seq<string>)

  /** The fix decided on the block alone, as if it were the whole file. */
  function OwnEdit(b: Block): (e: Edit)
    ensures Fits(b.lines, e)
  {
    EditFor(b.lines, Finding(1, b.severity))
  }

  function Patched(b: Block): seq<string> {
    Apply(b.lines, OwnEdit(b))
  }

  function Flat(blocks: seq<Block>): seq<string> {
    if blocks == [] then [] else blocks[0].lines + Flat(blocks[1..])
  }

  function FlatPatched(blocks: seq<Block>): seq<string> {
    if blocks == [] then [] else Patched(blocks[0]) + FlatPatched(blocks[1..])
  }

  /** One finding per block, bottom-most first, for blocks that start after `start` lines. */
  function FindingsOf(start: nat, blocks: seq<Block>): (fs: seq<Finding>)
    ensures |fs| == |blocks|
    ensures forall i :: 0 <= i < |fs| ==> fs[i].line > start
    decreases |blocks|
  {
    if blocks == [] then []
    else FindingsOf(start + |blocks[0].lines|, blocks[1..]) + [Finding(start + 1, blocks[0].severity)]
  }

  // ---- A fix that succeeds in its own block does the same in the file -------------------------------------

  function Moved(e: Edit, offset: nat): Edit {
    match e
    case Nothing => Nothing
    case Change(i, text) => Change(i + offset, text)
    case Insertion(i, text) => Insertion(i + offset, text)
  }

  lemma {:induction false} FirstInContext(pre: seq<string>, block: seq<string>, rest: seq<string>, test: string -> bool, length: nat)
    requires FirstIn(block, test, 0, Window(block, 0, length)) < Window(block, 0, length)
    ensures var whole := pre + block + rest;
            var stop := Window(whole, |pre|, length);
            && FirstIn(whole, test, |pre|, stop) == |pre| + FirstIn(block, test, 0, Window(block, 0, length))
            && FirstIn(whole, test, |pre|, stop) < stop
  {
    var whole := pre + block + rest;
    var k := FirstIn(block, test, 0, Window(block, 0, length));
    assert forall i :: 0 <= i < |block| ==> whole[|pre| + i] == block[i];
    var j := FirstIn(whole, test, |pre|, Window(whole, |pre|, length));
    assert test(whole[|pre| + k]);
    assert j <= |pre| + k;
    assert whole[j] == block[j - |pre|];
  }

  lemma {:induction false} DepthInContext(pre: seq<string>, block: seq<string>, rest: seq<string>, from: nat, stop: nat)
    requires from <= stop <= |block|
    ensures Depth(pre + block + rest, |pre| + from, |pre| + stop) == Depth(block, from, stop)
    decreases stop - from
  {
    if from < stop {
      DepthInContext(pre, block, rest, from, stop - 1);
      assert (pre + block + rest)[|pre| + stop - 1] == block[stop - 1];
    }
  }

  lemma {:induction false} ClosesInContext(pre: seq<string>, block: seq<string>, rest: seq<string>, d: nat, k: nat)
    requires d <= k < |block|
    ensures ClosesAt(pre + block + rest, |pre| + d, |pre| + k) <==> ClosesAt(block, d, k)
  {
    DepthInContext(pre, block, rest, d, k + 1);
    assert (pre + block + rest)[|pre| + d] == block[d];
  }

  lemma {:induction false} CloseInContext(pre: seq<string>, block: seq<string>, rest: seq<string>, d: nat)
    requires d < |block| && CloseOf(block, d, d, Window(block, d, 25)) < Window(block, d, 25)
    ensures var whole := pre + block + rest;
            var limit := Window(whole, |pre| + d, 25);
            && CloseOf(whole, |pre| + d, |pre| + d, limit) == |pre| + CloseOf(block, d, d, Window(block, d, 25))
            && CloseOf(whole, |pre| + d, |pre| + d, limit) < limit
  {
    var whole := pre + block + rest;
    var e := CloseOf(block, d, d, Window(block, d, 25));
    var limit := Window(whole, |pre| + d, 25);
    var c := CloseOf(whole, |pre| + d, |pre| + d, limit);
    ClosesInContext(pre, block, rest, d, e);
    assert c <= |pre| + e;
    ClosesInContext(pre, block, rest, d, c - |pre|);
    assert c == |pre| + (c - |pre|);
  }

  lemma {:induction false} BareInContext(pre: seq<string>, block: seq<string>, rest: seq<string>)
    requires BareEdit(block, 1) != Nothing
    ensures BareEdit(pre + block + rest, |pre| + 1) == Moved(BareEdit(block, 1), |pre|)
  {
    FirstInContext(pre, block, rest, IsBare, 20);
    var k := FirstIn(block, IsBare, 0, Window(block, 0, 20));
    assert (pre + block + rest)[|pre| + k] == block[k];
  }

  lemma {:induction false} MissingInContext(pre: seq<string>, block: seq<string>, rest: seq<string>)
    requires MissingEdit(block, 1) != Nothing
    ensures MissingEdit(pre + block + rest, |pre| + 1) == Moved(MissingEdit(block, 1), |pre|)
  {
    var d := FirstIn(block, IsDef, 0, Window(block, 0, 10));
    FirstInContext(pre, block, rest, IsDef, 10);
    SignatureInContext(pre, block, rest, d);
  }

  lemma {:induction false} SignatureInContext(pre: seq<string>, block: seq<string>, rest: seq<string>, d: nat)
    requires d < |block| && SignatureEdit(block, d) != Nothing
    ensures SignatureEdit(pre + block + rest, |pre| + d) == Moved(SignatureEdit(block, d), |pre|)
  {
    assert (pre + block + rest)[|pre| + d] == block[d];
    CloseInContext(pre, block, rest, d);
  }

  lemma {:induction false} EditInContext(pre: seq<string>, b: Block, rest: seq<string>)
    requires OwnEdit(b) != Nothing
    ensures EditFor(pre + b.lines + rest, Finding(|pre| + 1, b.severity)) == Moved(OwnEdit(b), |pre|)
  {
    match b.severity
    case BareAuthentication => BareInContext(pre, b.lines, rest);
    case MissingAuthentication => MissingInContext(pre, b.lines, rest);
  }

  lemma ApplyInContext(pre: seq<string>, block: seq<string>, rest: seq<string>, e: Edit)
    requires Fits(block, e)
    ensures Fits(pre + block + rest, Moved(e, |pre|))
    ensures Apply(pre + block + rest, Moved(e, |pre|)) == pre + Apply(block, e) + rest
  {
    match e
    case Nothing =>
    case Change(i, text) => UpdateInContext(pre, block, rest, i, text);
    case Insertion(i, text) =>
      SliceInContext(pre, block, rest, i);
      RegroupInsertion(pre, block[..i], text, block[i..], rest);
  }

  lemma RegroupInsertion(pre: seq<string>, front: seq<string>, x: string, back: seq<string>, rest: seq<string>)
    ensures pre + front + [x] + (back + rest) == pre + (front + [x] + back) + rest
  {
  }

  /** Fixing one finding in the file fixes its block and nothing else. */
  lemma FixesItsBlock(pre: seq<string>, b: Block, rest: seq<string>)
    requires OwnEdit(b) != Nothing
    ensures var lines := pre + b.lines + rest;
            Apply(lines, EditFor(lines, Finding(|pre| + 1, b.severity))) == pre + Patched(b) + rest
  {
    EditInContext(pre, b, rest);
    ApplyInContext(pre, b.lines, rest, OwnEdit(b));
  }

  // The induction over the blocks does not look inside a fix: it holds for any fixing function that
  // turns one block into its patched form wherever it stands.

  type Fixer = (seq<string>, Finding) -> seq<string>

  function FixOne(lines: seq<string>, f: Finding): seq<string> {
    if f.line == 0 then lines else Apply(lines, EditFor(lines, f))
  }

  function Fold(fix: Fixer, lines: seq<string>, fs: seq<Finding>): seq<string>
    decreases |fs|
  {
    if fs == [] then lines else Fold(fix, fix(lines, fs[0]), fs[1..])
  }

  lemma {:induction false} ProcessIsFold(lines: seq<string>, fs: seq<Finding>)
    requires OneBased(fs)
    ensures Process(lines, fs) == Fold(FixOne, lines, fs)
    decreases |fs|
  {
    if fs != [] {
      ProcessIsFold(Apply(lines, EditFor(lines, fs[0])), fs[1..]);
    }
  }

  lemma {:induction false} FoldSnoc(fix: Fixer, lines: seq<string>, fs: seq<Finding>, f: Finding)
    ensures Fold(fix, lines, fs + [f]) == fix(Fold(fix, lines, fs), f)
    decreases |fs|
  {
    if fs == [] {
      assert fs + [f] == [f];
      assert Fold(fix, fix(lines, f), [f][1..]) == fix(lines, f);
    } else {
      assert (fs + [f])[1..] == fs[1..] + [f];
      FoldSnoc(fix, fix(lines, fs[0]), fs[1..], f);
    }
  }

  /** A block with what the fixing function makes of it. */
  datatype Chunk = Chunk(lines: seq<string>, patched: seq<string>, severity: Severity)

  ghost predicate FixesInPlace(fix: Fixer, c: Chunk) {
    forall pre, rest :: fix(pre + c.lines + rest, Finding(|pre| + 1, c.severity)) == pre + c.patched + rest
  }

  function Before(cs: seq<Chunk>): seq<string> {
    if cs == [] then [] else cs[0].lines + Before(cs[1..])
  }

  function After(cs: seq<Chunk>): seq<string> {
    if cs == [] then [] else cs[0].patched + After(cs[1..])
  }

  function Reported(start: nat, cs: seq<Chunk>): seq<Finding>
    decreases |cs|
  {
    if cs == [] then [] else Reported(start + |cs[0].lines|, cs[1..]) + [Finding(start + 1, cs[0].severity)]
  }

  lemma {:induction false} FoldIsBlockwise(fix: Fixer, pre: seq<string>, cs: seq<Chunk>)
    requires forall c :: c in cs ==> FixesInPlace(fix, c)
    ensures Fold(fix, pre + Before(cs), Reported(|pre|, cs)) == pre + After(cs)
    decreases |cs|
  {
    if cs != [] {
      var c, others := cs[0], cs[1..];
      var lower := Reported(|pre| + |c.lines|, others);
      Assoc(pre, c.lines, Before(others));
      assert |pre + c.lines| == |pre| + |c.lines|;
      FoldIsBlockwise(fix, pre + c.lines, others);
      FoldSnoc(fix, pre + c.lines + Before(others), lower, Finding(|pre| + 1, c.severity));
      assert FixesInPlace(fix, c);
      Assoc(pre, c.patched, After(others));
    }
  }

  // ---- The fixer is such a function on blocks it can fix ----------------------------------------------------

  function ChunkOf(b: Block): Chunk {
    Chunk(b.lines, Patched(b), b.severity)
  }

  lemma BlockFixesInPlace(b: Block)
    requires OwnEdit(b) != Nothing
    ensures FixesInPlace(FixOne, ChunkOf(b))
  {
    forall pre, rest
      ensures FixOne(pre + b.lines + rest, Finding(|pre| + 1, b.severity)) == pre + Patched(b) + rest
    {
      FixesItsBlock(pre, b, rest);
    }
  }

  function Chunks(blocks: seq<Block>): seq<Chunk> {
    if blocks == [] then [] else [ChunkOf(blocks[0])] + Chunks(blocks[1..])
  }

  /** Every finding can be fixed within its own block. */
  ghost predicate AllFixable(blocks: seq<Block>) {
    blocks == [] || (OwnEdit(blocks[0]) != Nothing && AllFixable(blocks[1..]))
  }

  lemma {:induction false} ChunksFix(blocks: seq<Block>)
    requires AllFixable(blocks)
    ensures forall c :: c in Chunks(blocks) ==> FixesInPlace(FixOne, c)
  {
    if blocks != [] {
      BlockFixesInPlace(blocks[0]);
      ChunksFix(blocks[1..]);
    }
  }

  lemma ConsTail(c: Chunk, cs: seq<Chunk>)
    ensures ([c] + cs)[0] == c && ([c] + cs)[1..] == cs
  {
  }

  lemma {:induction false} ChunksBefore(blocks: seq<Block>)
    ensures Before(Chunks(blocks)) == Flat(blocks)
  {
    if blocks != [] {
      ChunksBefore(blocks[1..]);
      ConsTail(ChunkOf(blocks[0]), Chunks(blocks[1..]));
    }
  }

  lemma {:induction false} ChunksAfter(blocks: seq<Block>)
    ensures After(Chunks(blocks)) == FlatPatched(blocks)
  {
    if blocks != [] {
      ChunksAfter(blocks[1..]);
      ConsTail(ChunkOf(blocks[0]), Chunks(blocks[1..]));
    }
  }

  lemma {:induction false} ChunksReported(blocks: seq<Block>, start: nat)
    ensures Reported(start, Chunks(blocks)) == FindingsOf(start, blocks)
    decreases |blocks|
  {
    if blocks != [] {
      ChunksReported(blocks[1..], start + |blocks[0].lines|);
      ReportedCons(start, ChunkOf(blocks[0]), Chunks(blocks[1..]));
    }
  }

  lemma {:induction false} ReportedCons(start: nat, c: Chunk, cs: seq<Chunk>)
    ensures Reported(start, [c] + cs) == Reported(start + |c.lines|, cs) + [Finding(start + 1, c.severity)]
  {
    ConsTail(c, cs);
  }

  lemma BottomUpIsBlockwise(pre: seq<string>, blocks: seq<Block>)
    requires AllFixable(blocks)
    ensures Process(pre + Flat(blocks), FindingsOf(|pre|, blocks)) == pre + FlatPatched(blocks)
  {
    ChunksFix(blocks);
    ChunksBefore(blocks);
    ChunksAfter(blocks);
    ChunksReported(blocks, |pre|);
    FoldIsBlockwise(FixOne, pre, Chunks(blocks));
    ProcessIsFold(pre + Flat(blocks), FindingsOf(|pre|, blocks));
  }

  lemma {:induction false} FindingsDescend(start: nat, blocks: seq<Block>)
    requires AllFixable(blocks)
    ensures StrictlyDescending(FindingsOf(start, blocks))
    decreases |blocks|
  {
    if blocks != [] {
      FindingsDescend(start + |blocks[0].lines|, blocks[1..]);
    }
  }

  lemma SameHead(xs: seq<Finding>, ys: seq<Finding>)
    requires StrictlyDescending(xs) && StrictlyDescending(ys) && multiset(xs) == multiset(ys) && xs != []
    ensures ys != [] && xs[0] == ys[0]
  {
    assert xs[0] in multiset(ys);
    var i :| 0 <= i < |ys| && ys[i] == xs[0];
    assert ys[0] in multiset(xs);
    var k :| 0 <= k < |xs| && xs[k] == ys[0];
  }

  /** A strictly descending list is determined by its elements. */
  lemma {:induction false} OneDescendingOrder(xs: seq<Finding>, ys: seq<Finding>)
    requires StrictlyDescending(xs) && StrictlyDescending(ys) && multiset(xs) == multiset(ys)
    ensures xs == ys
    decreases |xs|
  {
    if xs == [] {
      assert |multiset(ys)| == 0;
    } else {
      SameHead(xs, ys);
      TailOf(xs);
      TailOf(ys);
      OneDescendingOrder(xs[1..], ys[1..]);
      assert xs == [xs[0]] + xs[1..] && ys == [ys[0]] + ys[1..];
    }
  }

  /**
    Bottom-up patching with stale line numbers is simultaneous patching of the handlers: if every
    finding can be fixed within its own block, then, in whatever order the findings arrive, the file
    becomes its head followed by each block fixed on its own.
   */
  lemma PatchingIsBlockwise(pre: seq<string>, blocks: seq<Block>, findings: seq<Finding>)
    requires AllFixable(blocks)
    requires multiset(findings) == multiset(FindingsOf(|pre|, blocks))
    ensures OneBased(BottomUp(findings))
    ensures Process(pre + Flat(blocks), BottomUp(findings)) == pre + FlatPatched(blocks)
  {
    var fs, order := FindingsOf(|pre|, blocks), BottomUp(findings);
    FindingsDescend(|pre|, blocks);
    forall i, k | 0 <= i < k < |order| ensures order[i].line > order[k].line {
      DescendingHasNoTies(order, fs, i, k);
    }
    OneDescendingOrder(order, fs);
    BottomUpIsBlockwise(pre, blocks);
  }

  lemma {:induction false} DescendingHasNoTies(xs: seq<Finding>, ys: seq<Finding>, i: nat, k: nat)
    requires Descending(xs) && StrictlyDescending(ys) && multiset(xs) == multiset(ys) && i < k < |xs|
    ensures xs[i].line > xs[k].line
  {
    assert xs[i] in multiset(ys) && xs[k] in multiset(ys);
    var a :| 0 <= a < |ys| && ys[a] == xs[i];
    var b :| 0 <= b < |ys| && ys[b] == xs[k];
    if xs[i] == xs[k] {
      TwiceInMultiset(xs, i, k);
      OnceInMultiset(ys, a);
    }
  }

  lemma TwiceInMultiset(xs: seq<Finding>, i: nat, k: nat)
    requires i < k < |xs| && xs[i] == xs[k]
    ensures multiset(xs)[xs[i]] >= 2
  {
    assert xs == xs[..k] + ([xs[k]] + xs[k + 1..]);
    assert xs[..k][i] == xs[i] && xs[i] in multiset(xs[..k]);
  }

  lemma OnceInMultiset(ys: seq<Finding>, a: nat)
    requires StrictlyDescending(ys) && a < |ys|
    ensures multiset(ys)[ys[a]] == 1
  {
    var x := ys[a];
    assert ys == ys[..a] + ([x] + ys[a + 1..]);
    assert x !in ys[..a] && x !in ys[a + 1..];
    assert x !in multiset(ys[..a]) && x !in multiset(ys[a + 1..]);
  }

  // ---- What the fixes do not promise ---------------------------------------------------------------------

  /** Nothing found in a block is nothing found in the file before the block's end. */
  lemma {:induction false} FirstBeyond(pre: seq<string>, block: seq<string>, rest: seq<string>, test: string -> bool, length: nat)
    requires FirstIn(block, test, 0, Window(block, 0, length)) == Window(block, 0, length)
    ensures var whole := pre + block + rest;
            var stop := Window(whole, |pre|, length);
            var j := FirstIn(whole, test, |pre|, stop);
            j == stop || |pre| + |block| <= j
  {
    var whole := pre + block + rest;
    var j := FirstIn(whole, test, |pre|, Window(whole, |pre|, length));
    if j < |pre| + |block| {
      assert whole[j] == block[j - |pre|];
    }
  }

  lemma {:induction false} CloseBeyond(pre: seq<string>, block: seq<string>, rest: seq<string>, d: nat)
    requires d < |block| && CloseOf(block, d, d, Window(block, d, 25)) == Window(block, d, 25)
    ensures var whole := pre + block + rest;
            var limit := Window(whole, |pre| + d, 25);
            var c := CloseOf(whole, |pre| + d, |pre| + d, limit);
            c == limit || |pre| + |block| <= c
  {
    var whole := pre + block + rest;
    var limit := Window(whole, |pre| + d, 25);
    var c := CloseOf(whole, |pre| + d, |pre| + d, limit);
    if c < limit && c < |pre| + |block| {
      ClosesInContext(pre, block, rest, d, c - |pre|);
    }
  }

  /** The edit changes or inserts a line before line `end`. */
  predicate EditsBefore(e: Edit, end: nat) {
    e != Nothing && e.at < end
  }

  lemma {:induction false} BareBeyond(pre: seq<string>, block: seq<string>, rest: seq<string>)
    requires BareEdit(block, 1) == Nothing
    ensures !EditsBefore(BareEdit(pre + block + rest, |pre| + 1), |pre| + |block|)
  {
    FirstBeyond(pre, block, rest, IsBare, 20);
  }

  lemma {:induction false} SignatureBeyond(pre: seq<string>, block: seq<string>, rest: seq<string>, d: nat)
    requires d < |block| && SignatureEdit(block, d) == Nothing
    ensures !EditsBefore(SignatureEdit(pre + block + rest, |pre| + d), |pre| + |block|)
  {
    assert (pre + block + rest)[|pre| + d] == block[d];
    if CloseOf(block, d, d, Window(block, d, 25)) == Window(block, d, 25) {
      CloseBeyond(pre, block, rest, d);
    } else {
      CloseInContext(pre, block, rest, d);
    }
  }

  lemma {:induction false} MissingBeyond(pre: seq<string>, block: seq<string>, rest: seq<string>)
    requires MissingEdit(block, 1) == Nothing
    ensures !EditsBefore(MissingEdit(pre + block + rest, |pre| + 1), |pre| + |block|)
  {
    var d := FirstIn(block, IsDef, 0, Window(block, 0, 10));
    if d == Window(block, 0, 10) {
      FirstBeyond(pre, block, rest, IsDef, 10);
    } else {
      FirstInContext(pre, block, rest, IsDef, 10);
      SignatureBeyond(pre, block, rest, d);
    }
  }

  /**
    A fix, of either kind, stays in its finding's block exactly when it succeeds on the block alone; and then
    it is the same fix. Any other fix does nothing or lands beyond the block.
   */
  lemma FixStaysIff(pre: seq<string>, b: Block, rest: seq<string>)
    ensures var e := EditFor(pre + b.lines + rest, Finding(|pre| + 1, b.severity));
            && (EditsBefore(e, |pre| + |b.lines|) <==> OwnEdit(b) != Nothing)
            && (OwnEdit(b) != Nothing ==> e == Moved(OwnEdit(b), |pre|))
  {
    if OwnEdit(b) != Nothing {
      EditInContext(pre, b, rest);
    } else {
      match b.severity
      case BareAuthentication => BareBeyond(pre, b.lines, rest);
      case MissingAuthentication => MissingBeyond(pre, b.lines, rest);
    }
  }

  /**
    In particular, a bare-authentication finding is "fixed" in another handler exactly when its own block
    has no bare dependency and is short enough for one to follow within 20 lines of the reported line.
   */
  lemma BareFixLeavesItsHandlerIff(pre: seq<string>, block: seq<string>, rest: seq<string>)
    ensures var e := EditFor(pre + block + rest, Finding(|pre| + 1, BareAuthentication));
            e.Change? && |pre| + |block| <= e.at <==>
            && (forall i :: 0 <= i < |block| ==> !IsBare(block[i]))
            && exists k :: 0 <= k < |rest| && |block| + k < 20 && IsBare(rest[k])
  {
    var whole := pre + block + rest;
    assert forall i :: 0 <= i < |block| ==> whole[|pre| + i] == block[i];
    assert forall i :: |pre| <= i < |pre| + |block| ==> whole[i] == block[i - |pre|];
    assert whole[|pre| + |block|..] == rest;
    FirstInRestIff(whole, IsBare, |pre|, |block|, rest, 20);
  }

  /** The first hit lies behind a stretch exactly when the stretch has none and the window reaches one. */
  lemma {:induction false} FirstInRestIff(
    whole: seq<string>, test: string -> bool, start: nat, length: nat, rest: seq<string>, window: nat)
    requires start + length <= |whole| && whole[start + length..] == rest
    ensures var stop := Window(whole, start, window);
            start + length <= FirstIn(whole, test, start, stop) < stop <==>
            && (forall i :: start <= i < start + length ==> !test(whole[i]))
            && exists k :: 0 <= k < |rest| && length + k < window && test(rest[k])
  {
    var stop := Window(whole, start, window);
    var j := FirstIn(whole, test, start, stop);
    assert forall k :: 0 <= k < |rest| ==> whole[start + length + k] == rest[k];
    if start + length <= j < stop {
      assert test(rest[j - start - length]);
    }
    if k :| 0 <= k < |rest| && length + k < window && test(rest[k]) {
      assert test(whole[start + length + k]);
    }
  }
}
