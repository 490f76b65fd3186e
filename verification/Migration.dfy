/**
  Moving media assets from local disk to Cloudinary: each asset that uploads gets a new public URL,
  and every denormalised URL column that holds the old one is rewritten in place, asset by asset.
 */
module Migration {
  import opened Wrappers

  /** A URL column: one cell per row, None for NULL. */
  type Column = seq<Option<string>>

  datatype Driver = Local | Cloudinary

  datatype Asset = Asset(driver: Driver, url: Option<string>)

  /** One local asset and how its upload went: the new URL, or None if the file was missing or the upload failed. */
  datatype Move = Move(id: nat, oldUrl: Option<string>, newUrl: Option<string>)

  /** The move rewrites references: it succeeded and had a URL to look for. */
  predicate Rewrites(m: Move) {
    m.newUrl.Some? && m.oldUrl.Some? && m.oldUrl.value != ""
  }

  predicate Hit(cell: Option<string>, m: Move) {
    Rewrites(m) && cell == m.oldUrl
  }

  /** `UPDATE t SET c = :new WHERE c = :old` on one cell. */
  function Step(cell: Option<string>, m: Move): Option<string> {
    if Hit(cell, m) then m.newUrl else cell
  }

  function Last<T>(s: seq<T>): T
    requires s != []
  {
    s[|s| - 1]
  }

  function Init<T>(s: seq<T>): seq<T>
    requires s != []
  {
    s[..|s| - 1]
  }

  /** A cell after the moves, one statement after another. */
  function OneByOne(cell: Option<string>, moves: seq<Move>): Option<string> {
    if moves == [] then cell else Step(OneByOne(cell, Init(moves)), Last(moves))
  }

  /** A cell after one substitution of all old URLs at once. */
  function AtOnce(cell: Option<string>, moves: seq<Move>): Option<string> {
    if moves == [] then cell
    else if Hit(cell, Last(moves)) then Last(moves).newUrl
    else AtOnce(cell, Init(moves))
  }

  function Count(col: Column, m: Move): nat {
    if col == [] then 0 else Count(Init(col), m) + (if Hit(Last(col), m) then 1 else 0)
  }

  function ColumnAfter(col: Column, moves: seq<Move>): (r: Column)
    ensures |r| == |col|
    ensures forall i :: 0 <= i < |r| ==> r[i] == OneByOne(col[i], moves)
  {
    seq(|col|, i requires 0 <= i < |col| => OneByOne(col[i], moves))
  }

  /** The sum of the row counts the statements on one column reported. */
  function Reported(col: Column, moves: seq<Move>): nat {
    if moves == [] then 0
    else Reported(col, Init(moves)) + Count(ColumnAfter(col, Init(moves)), Last(moves))
  }

  function AssetsAfter(assets: map<nat, Asset>, moves: seq<Move>): map<nat, Asset> {
    if moves == [] then assets
    else
      var before := AssetsAfter(assets, Init(moves));
      var m := Last(moves);
      if m.newUrl.Some? && m.id in before then before[m.id := Asset(Cloudinary, m.newUrl)] else before
  }

  function Uploaded(moves: seq<Move>): nat {
    if moves == [] then 0 else Uploaded(Init(moves)) + (if Last(moves).newUrl.Some? then 1 else 0)
  }

  /** The files that end up in the cloud store. */
  function Uploads(moves: seq<Move>): (urls: seq<string>)
    ensures |urls| == Uploaded(moves)
  {
    if moves == [] then []
    else Uploads(Init(moves)) + (if Last(moves).newUrl.Some? then [Last(moves).newUrl.value] else [])
  }

  // ---- The script ------------------------------------------------------------------------------------

  class Database {
    var assets: map<nat, Asset>
    var columns: map<string, Column>
    var cloud: seq<string>  // what has been uploaded; no rollback takes it back

    /** One UPDATE statement; `n` is the row count it reports. */
    static method Update(col: Column, m: Move) returns (r: Column, n: nat)
      requires Rewrites(m)
      ensures Stepped(col, r, m)
      ensures n == Count(col, m)
    {
      r, n := col, 0;
      for i := 0 to |col|
        invariant |r| == |col| && n == Count(col[..i], m)
        invariant forall k :: 0 <= k < i ==> r[k] == Step(col[k], m)
        invariant forall k :: i <= k < |col| ==> r[k] == col[k]
      {
        assert Init(col[..i + 1]) == col[..i] && Last(col[..i + 1]) == col[i];
        if r[i] == m.oldUrl {
          r := r[i := m.newUrl];
          n := n + 1;
        }
      }
      assert col[..|col|] == col;
    }

    /**
      `run`: the loop over the local assets, then commit, or roll back when it is a dry run. A dry run leaves
      the database alone, but not the cloud store: it uploads every file as well.
     */
    method Run(moves: seq<Move>, execute: bool) returns (migrated: nat, failed: nat, updates: map<string, nat>)
      modifies this
      ensures migrated == Uploaded(moves) && migrated + failed == |moves|
      ensures cloud == old(cloud) + Uploads(moves)
      ensures !execute ==> assets == old(assets) && columns == old(columns) && updates == map[]
      ensures execute ==> assets == AssetsAfter(old(assets), moves) && IsAfter(old(columns), columns, updates, moves)
    {
      migrated, failed, updates := 0, 0, map[];
      var session, cells := assets, columns;
      for i := 0 to |moves|
        invariant assets == old(assets) && columns == old(columns)
        invariant migrated == Uploaded(moves[..i]) && migrated + failed == i
        invariant cloud == old(cloud) + Uploads(moves[..i])
        invariant !execute ==> updates == map[]
        invariant execute ==> session == AssetsAfter(assets, moves[..i]) && IsAfter(columns, cells, updates, moves[..i])
      {
        var m := moves[i];
        assert Init(moves[..i + 1]) == moves[..i] && Last(moves[..i + 1]) == m;
        if m.newUrl.None? {
          IdleMove(columns, cells, updates, moves[..i + 1]);
          failed := failed + 1;
          continue;
        }
        cloud := cloud + [m.newUrl.value];
        if !execute {
          migrated := migrated + 1;
          continue;
        }
        if m.id in session {
          session := session[m.id := Asset(Cloudinary, m.newUrl)];
        }
        if m.oldUrl.Some? && m.oldUrl.value != "" {
          var cells', updates' := Repoint(cells, updates, m);
          NextMove(columns, cells, updates, cells', updates', moves[..i + 1]);
          cells, updates := cells', updates';
        } else {
          IdleMove(columns, cells, updates, moves[..i + 1]);
        }
        migrated := migrated + 1;
      }
      assert moves[..|moves|] == moves;
      if execute {
        assets, columns := session, cells;
      }
    }

    /** The loop over the URL columns for one asset. */
    static method Repoint(cells: map<string, Column>, updates: map<string, nat>, m: Move)
      returns (cells': map<string, Column>, updates': map<string, nat>)
      requires Rewrites(m) && updates.Keys <= cells.Keys
      ensures IsUpdated(cells, updates, cells', updates', m)
    {
      cells', updates' := cells, updates;
      var pending := cells.Keys;
      while pending != {}
        invariant pending <= cells.Keys && cells'.Keys == cells.Keys && updates'.Keys <= cells.Keys
        invariant forall c :: c in pending ==> cells'[c] == cells[c]
        invariant forall c :: c in pending ==> (c in updates' <==> c in updates) && (c in updates ==> updates'[c] == updates[c])
        invariant forall c :: c in cells.Keys - pending ==> Stepped(cells[c], cells'[c], m)
        invariant forall c :: c in cells.Keys - pending ==>
          CountOf(updates', c) == CountOf(updates, c) + Count(cells[c], m)
      {
        var name :| name in pending;
        pending := pending - {name};
        var col, n := Update(cells'[name], m);
        cells' := cells'[name := col];
        if n > 0 {
          updates' := updates'[name := CountOf(updates', name) + n];
        }
      }
    }
  }

  function CountOf(updates: map<string, nat>, c: string): nat {
    if c in updates then updates[c] else 0
  }

  predicate Stepped(col: Column, col': Column, m: Move) {
    |col'| == |col| && forall k :: 0 <= k < |col| ==> col'[k] == Step(col[k], m)
  }

  /** Every column has been rewritten for one move, and its count raised by the cells that matched. */
  ghost predicate IsUpdated(cells: map<string, Column>, updates: map<string, nat>,
                            cells': map<string, Column>, updates': map<string, nat>, m: Move) {
    && cells'.Keys == cells.Keys && updates'.Keys <= cells.Keys
    && (forall c :: c in cells ==>
          Stepped(cells[c], cells'[c], m) && CountOf(updates', c) == CountOf(updates, c) + Count(cells[c], m))
  }

  /** Cells and counts are what the moves make of the columns. */
  ghost predicate IsAfter(columns: map<string, Column>, cells: map<string, Column>, updates: map<string, nat>,
                          moves: seq<Move>) {
    && cells.Keys == columns.Keys && updates.Keys <= columns.Keys
    && (forall c :: c in columns ==>
          cells[c] == ColumnAfter(columns[c], moves) && CountOf(updates, c) == Reported(columns[c], moves))
  }

  lemma NextMove(columns: map<string, Column>, cells: map<string, Column>, updates: map<string, nat>,
                 cells': map<string, Column>, updates': map<string, nat>, moves: seq<Move>)
    requires moves != [] && IsAfter(columns, cells, updates, Init(moves))
    requires IsUpdated(cells, updates, cells', updates', Last(moves))
    ensures IsAfter(columns, cells', updates', moves)
  {
    forall c | c in columns ensures cells'[c] == ColumnAfter(columns[c], moves) {
      assert Stepped(cells[c], cells'[c], Last(moves));
    }
  }

  /** A failed upload, or an asset without a URL, changes no cell. */
  lemma IdleMove(columns: map<string, Column>, cells: map<string, Column>, updates: map<string, nat>, moves: seq<Move>)
    requires moves != [] && !Rewrites(Last(moves))
    ensures IsAfter(columns, cells, updates, Init(moves)) ==> IsAfter(columns, cells, updates, moves)
  {
    if IsAfter(columns, cells, updates, Init(moves)) {
      forall c | c in cells ensures Count(cells[c], Last(moves)) == 0 {
        CountNothing(cells[c], Last(moves));
      }
      NextMove(columns, cells, updates, cells, updates, moves);
    }
  }

  lemma {:induction false} CountNothing(col: Column, m: Move)
    requires !Rewrites(m)
    ensures Count(col, m) == 0
  {
    if col != [] {
      CountNothing(Init(col), m);
    }
  }
}
