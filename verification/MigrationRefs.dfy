/** What the rewriting of URL cells preserves. */
module MigrationRefs {
  import opened Wrappers
  import opened Migration

  /** No two rewriting moves look for the same URL. */
  ghost predicate DistinctOld(moves: seq<Move>) {
    forall i, k :: 0 <= i < k < |moves| && Rewrites(moves[i]) && Rewrites(moves[k]) ==>
      moves[i].oldUrl != moves[k].oldUrl
  }

  ghost predicate DistinctNew(moves: seq<Move>) {
    forall i, k :: 0 <= i < k < |moves| && Rewrites(moves[i]) && Rewrites(moves[k]) ==>
      moves[i].newUrl != moves[k].newUrl
  }

  /** No upload gives back the URL it replaces. */
  ghost predicate Moving(moves: seq<Move>) {
    forall i :: 0 <= i < |moves| && Rewrites(moves[i]) ==> moves[i].newUrl != moves[i].oldUrl
  }

  /** No new URL is the old URL of an asset that is moved later. */
  ghost predicate NoChain(moves: seq<Move>) {
    forall i, k :: 0 <= i < k < |moves| && Rewrites(moves[i]) && Rewrites(moves[k]) ==>
      moves[i].newUrl != moves[k].oldUrl
  }

  // ---- One statement after another is one substitution ------------------------------------------------

  lemma {:induction false} AtOnceIs(cell: Option<string>, moves: seq<Move>)
    requires DistinctOld(moves)
    ensures forall i :: 0 <= i < |moves| && Hit(cell, moves[i]) ==> AtOnce(cell, moves) == moves[i].newUrl
    ensures (forall i :: 0 <= i < |moves| ==> !Hit(cell, moves[i])) ==> AtOnce(cell, moves) == cell
  {
    if moves != [] {
      AtOnceIs(cell, Init(moves));
      forall i | 0 <= i < |moves| && Hit(cell, moves[i]) ensures AtOnce(cell, moves) == moves[i].newUrl {
        if i < |moves| - 1 {
          assert Init(moves)[i] == moves[i];
          assert !Hit(cell, Last(moves));
        }
      }
    }
  }

  lemma {:induction false} SequentialIsSimultaneous(cell: Option<string>, moves: seq<Move>)
    requires DistinctOld(moves) && NoChain(moves)
    ensures OneByOne(cell, moves) == AtOnce(cell, moves)
  {
    if moves != [] {
      var init, m := Init(moves), Last(moves);
      SequentialIsSimultaneous(cell, init);
      AtOnceIs(cell, init);
      if exists i :: 0 <= i < |init| && Hit(cell, init[i]) {
        var i :| 0 <= i < |init| && Hit(cell, init[i]);
        assert init[i] == moves[i];
        assert !Hit(moves[i].newUrl, m) && !Hit(cell, m);
      }
    }
  }

  /** A cell that holds none of the old URLs of the moves is left alone by them. */
  lemma {:induction false} MissedCell(cell: Option<string>, moves: seq<Move>)
    requires forall i :: 0 <= i < |moves| ==> !Hit(cell, moves[i])
    ensures OneByOne(cell, moves) == cell
  {
    if moves != [] {
      MissedCell(cell, Init(moves));
    }
  }

  /** From position `n` on, a cell that holds the new URL of an earlier move is never that URL again once rewritten. */
  lemma {:induction false} ChainedCellDiffers(moves: seq<Move>, i: nat, k: nat, n: nat)
    requires DistinctOld(moves) && DistinctNew(moves) && Moving(moves)
    requires i < k < n <= |moves| && Rewrites(moves[i]) && Rewrites(moves[k]) && moves[i].newUrl == moves[k].oldUrl
    ensures OneByOne(moves[i].oldUrl, moves[..n]) != moves[i].newUrl
    decreases n
  {
    var cell := moves[i].oldUrl;
    assert Init(moves[..n]) == moves[..n - 1] && Last(moves[..n]) == moves[n - 1];
    if n == k + 1 {
      CellUpTo(moves, i, k);
    } else {
      ChainedCellDiffers(moves, i, k, n - 1);
      assert moves[n - 1].newUrl != moves[i].newUrl || !Rewrites(moves[n - 1]);
    }
  }

  /** Between the two links of a chain the cell holds the first new URL. */
  lemma {:induction false} CellUpTo(moves: seq<Move>, i: nat, k: nat)
    requires DistinctOld(moves) && i < k < |moves| && Rewrites(moves[i]) && Rewrites(moves[k])
    requires moves[i].newUrl == moves[k].oldUrl
    ensures OneByOne(moves[i].oldUrl, moves[..k]) == moves[i].newUrl
  {
    HeldUntil(moves, i, k, k);
  }

  lemma {:induction false} HeldUntil(moves: seq<Move>, i: nat, k: nat, n: nat)
    requires DistinctOld(moves) && i < n <= k < |moves| && Rewrites(moves[i]) && Rewrites(moves[k])
    requires moves[i].newUrl == moves[k].oldUrl
    ensures OneByOne(moves[i].oldUrl, moves[..n]) == moves[i].newUrl
    decreases n
  {
    assert Init(moves[..n]) == moves[..n - 1] && Last(moves[..n]) == moves[n - 1];
    if n == i + 1 {
      forall j | 0 <= j < i ensures !Hit(moves[i].oldUrl, moves[..i][j]) {
        assert moves[..i][j] == moves[j];
      }
      MissedCell(moves[i].oldUrl, moves[..i]);
    } else {
      HeldUntil(moves, i, k, n - 1);
      assert !Hit(moves[k].oldUrl, moves[n - 1]);
    }
  }

  /**
    The rewriting equals one simultaneous substitution on every cell exactly when no upload lands on
    the old URL of an asset still to be moved.
   */
  lemma SimultaneousIffNoChain(moves: seq<Move>)
    requires DistinctOld(moves) && DistinctNew(moves) && Moving(moves)
    ensures (forall cell :: OneByOne(cell, moves) == AtOnce(cell, moves)) <==> NoChain(moves)
  {
    if NoChain(moves) {
      forall cell ensures OneByOne(cell, moves) == AtOnce(cell, moves) {
        SequentialIsSimultaneous(cell, moves);
      }
    } else {
      var i, k :| 0 <= i < k < |moves| && Rewrites(moves[i]) && Rewrites(moves[k]) && moves[i].newUrl == moves[k].oldUrl;
      ChainedCellDiffers(moves, i, k, |moves|);
      assert moves[..|moves|] == moves;
      AtOnceIs(moves[i].oldUrl, moves);
      assert OneByOne(moves[i].oldUrl, moves) != AtOnce(moves[i].oldUrl, moves);
    }
  }

  // ---- References ------------------------------------------------------------------------------------

  /** The cell points at the asset: it holds the asset's non-empty URL. */
  predicate PointsAt(assets: map<nat, Asset>, cell: Option<string>, id: nat) {
    id in assets && cell.Some? && cell.value != "" && assets[id].url == cell
  }

  /** The moves are the rows of the local assets, each once, with its URL. */
  ghost predicate ReadFrom(assets: map<nat, Asset>, moves: seq<Move>) {
    && (forall i :: 0 <= i < |moves| ==> moves[i].id in assets && moves[i].oldUrl == assets[moves[i].id].url)
    && (forall i, k :: 0 <= i < k < |moves| ==> moves[i].id != moves[k].id)
  }

  /** Assets do not share URLs. */
  ghost predicate DistinctUrls(assets: map<nat, Asset>) {
    forall a, b :: a in assets && b in assets && a != b && assets[a].url.Some? && assets[a].url.value != "" ==>
      assets[a].url != assets[b].url
  }

  /** The uploads got non-empty URLs that no asset has, all different. */
  ghost predicate FreshUrls(assets: map<nat, Asset>, moves: seq<Move>) {
    && (forall i :: 0 <= i < |moves| && moves[i].newUrl.Some? ==> moves[i].newUrl.value != "")
    && (forall i, a :: 0 <= i < |moves| && moves[i].newUrl.Some? && a in assets ==> assets[a].url != moves[i].newUrl)
    && (forall i, k :: 0 <= i < k < |moves| && moves[i].newUrl.Some? ==> moves[i].newUrl != moves[k].newUrl)
  }

  lemma MovesAreApart(assets: map<nat, Asset>, moves: seq<Move>)
    requires ReadFrom(assets, moves) && DistinctUrls(assets) && FreshUrls(assets, moves)
    ensures DistinctOld(moves) && NoChain(moves) && Moving(moves)
  {
    forall i, k | 0 <= i < k < |moves| && Rewrites(moves[i]) && Rewrites(moves[k])
      ensures moves[i].oldUrl != moves[k].oldUrl
    {
      assert moves[i].id != moves[k].id;
    }
  }

  lemma {:induction false} AssetAfter(assets: map<nat, Asset>, moves: seq<Move>, id: nat)
    requires ReadFrom(assets, moves)
    ensures AssetsAfter(assets, moves).Keys == assets.Keys
    ensures forall i :: 0 <= i < |moves| && moves[i].id == id ==>
              AssetsAfter(assets, moves)[id] == if moves[i].newUrl.Some? then Asset(Cloudinary, moves[i].newUrl) else assets[id]
    ensures id in assets && (forall i :: 0 <= i < |moves| ==> moves[i].id != id) ==>
              AssetsAfter(assets, moves)[id] == assets[id]
  {
    if moves != [] {
      AssetAfter(assets, Init(moves), id);
      assert forall i :: 0 <= i < |moves| - 1 ==> Init(moves)[i] == moves[i];
    }
  }

  /**
    Reference preservation: a cell that holds none of the new URLs points at an asset after the
    migration exactly if it pointed at that asset before it.
   */
  lemma ReferencesArePreserved(assets: map<nat, Asset>, moves: seq<Move>, cell: Option<string>, id: nat)
    requires ReadFrom(assets, moves) && DistinctUrls(assets) && FreshUrls(assets, moves)
    requires forall i :: 0 <= i < |moves| && moves[i].newUrl.Some? ==> cell != moves[i].newUrl
    ensures PointsAt(assets, cell, id) <==> PointsAt(AssetsAfter(assets, moves), OneByOne(cell, moves), id)
  {
    MovesAreApart(assets, moves);
    SequentialIsSimultaneous(cell, moves);
    AtOnceIs(cell, moves);
    AssetAfter(assets, moves, id);
    if id in assets {
      if h :| 0 <= h < |moves| && Hit(cell, moves[h]) {
        HitCellFollows(assets, moves, cell, id, h);
      } else {
        MissedCellStays(assets, moves, cell, id);
      }
    }
  }

  lemma HitCellFollows(assets: map<nat, Asset>, moves: seq<Move>, cell: Option<string>, id: nat, h: nat)
    requires ReadFrom(assets, moves) && DistinctUrls(assets) && FreshUrls(assets, moves) && id in assets
    requires h < |moves| && Hit(cell, moves[h]) && AssetsAfter(assets, moves).Keys == assets.Keys
    ensures PointsAt(assets, cell, id) <==> id == moves[h].id
    ensures PointsAt(AssetsAfter(assets, moves), moves[h].newUrl, id) <==> id == moves[h].id
  {
    AssetAfter(assets, moves, id);
    if k :| 0 <= k < |moves| && moves[k].id == id {
      assert k != h ==> moves[k].newUrl.Some? ==> moves[k].newUrl != moves[h].newUrl;
    }
  }

  lemma MissedCellStays(assets: map<nat, Asset>, moves: seq<Move>, cell: Option<string>, id: nat)
    requires ReadFrom(assets, moves) && id in assets && AssetsAfter(assets, moves).Keys == assets.Keys
    requires forall i :: 0 <= i < |moves| ==> !Hit(cell, moves[i])
    requires forall i :: 0 <= i < |moves| && moves[i].newUrl.Some? ==> cell != moves[i].newUrl
    ensures PointsAt(assets, cell, id) <==> PointsAt(AssetsAfter(assets, moves), cell, id)
  {
    AssetAfter(assets, moves, id);
    if k :| 0 <= k < |moves| && moves[k].id == id {
      assert !Hit(cell, moves[k]);
    }
  }

  /** The cells of an asset whose upload failed do not change. */
  lemma FailedAssetsKeepTheirCells(assets: map<nat, Asset>, moves: seq<Move>, f: nat)
    requires ReadFrom(assets, moves) && DistinctUrls(assets) && FreshUrls(assets, moves)
    requires f < |moves| && moves[f].newUrl.None? && moves[f].oldUrl.Some? && moves[f].oldUrl.value != ""
    ensures OneByOne(moves[f].oldUrl, moves) == moves[f].oldUrl
  {
    forall i | 0 <= i < |moves| ensures !Hit(moves[f].oldUrl, moves[i]) {
      if Rewrites(moves[i]) {
        assert moves[i].id != moves[f].id;
      }
    }
    MissedCell(moves[f].oldUrl, moves);
  }

  /** The cloud store receives the URL of every upload that succeeded, in their order, and nothing else. */
  lemma {:induction false} UploadsAre(moves: seq<Move>, m: Move)
    ensures Uploads([]) == []
    ensures Uploads(moves + [m]) == Uploads(moves) + (if m.newUrl.Some? then [m.newUrl.value] else [])
    ensures forall u :: u in Uploads(moves) <==> exists i :: 0 <= i < |moves| && moves[i].newUrl == Some(u)
  {
    assert Init(moves + [m]) == moves && Last(moves + [m]) == m;
    if moves != [] {
      UploadsAre(Init(moves), Last(moves));
      assert Init(moves) + [Last(moves)] == moves;
      forall u ensures u in Uploads(moves) <==> exists i :: 0 <= i < |moves| && moves[i].newUrl == Some(u) {
        if i :| 0 <= i < |moves| && moves[i].newUrl == Some(u) {
          assert i < |moves| - 1 ==> Init(moves)[i] == moves[i];
        }
      }
    }
  }

  // ---- Counts ----------------------------------------------------------------------------------------

  function Changed(col: Column, moves: seq<Move>): nat {
    if col == [] then 0
    else Changed(Init(col), moves) + (if OneByOne(Last(col), moves) != Last(col) then 1 else 0)
  }

  /** How many statements matched the cell. */
  function Hits(cell: Option<string>, moves: seq<Move>): nat {
    if moves == [] then 0
    else Hits(cell, Init(moves)) + (if Hit(OneByOne(cell, Init(moves)), Last(moves)) then 1 else 0)
  }

  function AllHits(col: Column, moves: seq<Move>): nat {
    if col == [] then 0 else AllHits(Init(col), moves) + Hits(Last(col), moves)
  }

  lemma {:induction false} AllHitsStep(col: Column, moves: seq<Move>)
    requires moves != []
    ensures AllHits(col, moves) == AllHits(col, Init(moves)) + Count(ColumnAfter(col, Init(moves)), Last(moves))
    decreases |col|
  {
    if col != [] {
      AllHitsStep(Init(col), moves);
      assert Init(ColumnAfter(col, Init(moves))) == ColumnAfter(Init(col), Init(moves));
    }
  }

  lemma {:induction false} NoHits(col: Column)
    ensures AllHits(col, []) == 0
  {
    if col != [] {
      NoHits(Init(col));
    }
  }

  lemma {:induction false} ReportedIsAllHits(col: Column, moves: seq<Move>)
    ensures Reported(col, moves) == AllHits(col, moves)
    decreases |moves|
  {
    if moves == [] {
      NoHits(col);
    } else {
      ReportedIsAllHits(col, Init(moves));
      AllHitsStep(col, moves);
    }
  }

  /** Each cell is matched at most once, and then it changes. */
  lemma {:induction false} HitOnce(cell: Option<string>, moves: seq<Move>)
    requires DistinctOld(moves) && NoChain(moves) && Moving(moves)
    ensures Hits(cell, moves) == if OneByOne(cell, moves) != cell then 1 else 0
  {
    if moves != [] {
      var init, m := Init(moves), Last(moves);
      HitOnce(cell, init);
      SequentialIsSimultaneous(cell, init);
      AtOnceIs(cell, init);
      assert m == moves[|moves| - 1];
      if OneByOne(cell, init) != cell {
        var i :| 0 <= i < |init| && Hit(cell, init[i]);
        assert init[i] == moves[i];
        assert OneByOne(cell, init) == moves[i].newUrl;
        assert !Hit(moves[i].newUrl, m);
      }
    }
  }

  /** The reported update count of a column is the number of its cells that changed. */
  lemma {:induction false} CountsAreChanges(col: Column, moves: seq<Move>)
    requires DistinctOld(moves) && NoChain(moves) && Moving(moves)
    ensures Reported(col, moves) == Changed(col, moves)
  {
    ReportedIsAllHits(col, moves);
    AllHitsIsChanged(col, moves);
  }

  lemma {:induction false} AllHitsIsChanged(col: Column, moves: seq<Move>)
    requires DistinctOld(moves) && NoChain(moves) && Moving(moves)
    ensures AllHits(col, moves) == Changed(col, moves)
    decreases |col|
  {
    if col != [] {
      AllHitsIsChanged(Init(col), moves);
      HitOnce(Last(col), moves);
    }
  }
}
