/**
  The parts of the map_maker application that drive the tile manager: the
  5x5 block of tiles around the load pixel, filled by `populate_tiles`, and
  the `LoadedImage`, `ZoomIn` and `ZoomOut` arms of `update`, reduced to
  their integer and queue effects.

  A `Command::perform(future, process_load)` is modelled as
  `PerformLoad(batch)`: the batch the future was built from. Running it is
  `RunLoad`, which is `load_tiles` followed by `process_load`.
 */
module App {
  import opened Wrappers
  import opened Tiles
  import opened Viewport
  import TileLemmas

  /** `MyMessage`. */
  datatype Message =
    | LoadedImage(tiles: seq<Tile>)
    | ZoomIn
    | ZoomOut
    | ImageLoadFailed
    | CenterPosition
    | VelocityEvent

  /** What `update` hands back to the runtime. */
  datatype Command =
    | NoCommand
    | PerformLoad(batch: seq<Coord>)

  /** `process_load`: the message a finished load turns into. */
  function ProcessLoad(resp: Option<seq<Tile>>): (msg: Message)
    ensures msg.LoadedImage? <==> resp.Some?
    ensures resp.Some? ==> msg.tiles == resp.value
    ensures resp.None? ==> msg == ImageLoadFailed
  {
    match resp
    case Some(tiles) => LoadedImage(tiles)
    case None => ImageLoadFailed
  }

  /**
    What the runtime does with `PerformLoad(batch)`: await the load and map
    it with `process_load`. Because `load_tiles` always answers `Some`, the
    message is never `ImageLoadFailed`.
   */
  method RunLoad(fetch: Fetcher, batch: seq<Coord>) returns (msg: Message)
    ensures msg.LoadedImage? && msg.tiles == LoadResults(fetch, batch)
    ensures |msg.tiles| == 2 * |batch|
  {
    var resp := LoadTiles(fetch, batch);
    msg := ProcessLoad(resp);
  }

  /**
    A change the application makes to the cache: the lookups of a
    `populate_tiles`, or an `ingest_loaded_tiles`.
   */
  datatype CacheStep =
    | Lookups(coords: seq<Coord>)
    | Ingest(records: seq<Tile>)

  /** The cache after `steps`, in order, starting from `m`. */
  function Replay(m: map<Coord, Tile>, steps: seq<CacheStep>): map<Coord, Tile>
    decreases |steps|
  {
    if steps == [] then m
    else
      var next := match steps[0]
        case Lookups(cs) => TouchAll(m, cs)
        case Ingest(ts) => IngestAll(m, ts);
      Replay(next, steps[1..])
  }

  /** A `Loaded` entry stays present and `Loaded` through any lookups and ingestions. */
  lemma {:induction false} LoadedStaysLoaded(m: map<Coord, Tile>, steps: seq<CacheStep>, c: Coord)
    requires c in m && m[c].state == Loaded
    ensures c in Replay(m, steps) && Replay(m, steps)[c].state == Loaded
    decreases |steps|
  {
    if steps != [] {
      match steps[0]
      case Lookups(cs) =>
        TileLemmas.TouchAllKeys(m, cs);
        LoadedStaysLoaded(TouchAll(m, cs), steps[1..], c);
      case Ingest(ts) =>
        TileLemmas.IngestAllAt(m, ts, c);
        LoadedStaysLoaded(IngestAll(m, ts), steps[1..], c);
    }
  }

  /**
    Once a batch has been fetched and ingested, no later `populate_tiles`
    queues any of its coordinates again, whatever lookups and ingestions
    came in between: all of them stay `Loaded`, including those whose fetch
    failed.
   */
  lemma LoadedBatchNotRequeued(m: map<Coord, Tile>, fetch: Fetcher, batch: seq<Coord>,
                               steps: seq<CacheStep>, cs: seq<Coord>, c: Coord)
    requires c in batch
    ensures c !in QueuedOf(Replay(IngestAll(m, LoadResults(fetch, batch)), steps), cs)
  {
    var ingested := IngestAll(m, LoadResults(fetch, batch));
    TileLemmas.IngestLoadResults(m, fetch, batch, c);
    LoadedStaysLoaded(ingested, steps, c);
    QueuedOfFacts(Replay(ingested, steps), cs, (a, b) => true);
  }

  /**
    The queue `populate_tiles` appends: tiles of the window only, each one a
    lookup reports `NotLoaded`, each at most once, at most 25 of them, and
    x-major then by y when the window does not wrap in `as u32`. Afterwards
    every tile of the window is in the cache.
   */
  lemma PopulateQueue(m: map<Coord, Tile>, center: (int, int), zoom: u8)
    ensures |QueuedOf(m, Window(center, zoom))| <= 25
    ensures Pairwise(QueuedOf(m, Window(center, zoom)), (a, b) => a != b)
    ensures forall c :: c in QueuedOf(m, Window(center, zoom)) <==>
                          InWindow(center, zoom, c) && Lookup(m, c).state == NotLoaded
    ensures center.0 + 2 < U32Modulus && center.1 + 2 < U32Modulus ==>
              Pairwise(QueuedOf(m, Window(center, zoom)), Before)
    ensures forall c | InWindow(center, zoom, c) :: c in TouchAll(m, Window(center, zoom))
  {
    var w := Window(center, zoom);
    WindowExactly(center, zoom);
    QueuedOfFacts(m, w, (a, b) => a != b);
    if center.0 + 2 < U32Modulus && center.1 + 2 < U32Modulus {
      WindowPrefixOrdered(center, zoom, 25);
      QueuedOfFacts(m, w, Before);
    }
    TileLemmas.TouchAllKeys(m, w);
  }

  /** `MapMaker`, without its button states, its drag state and its HTTP client. */
  class MapMaker {
    /** `tiles`: the records shown, cell [x][y]. */
    const tiles: array2<Tile>
    var zoomLevel: u8
    /** `load_pixel`, already truncated from f32 to isize. */
    var loadPixel: (int, int)
    const tileManager: TileManager

    ghost predicate Valid() {
      tiles.Length0 == LoadTileDimension && tiles.Length1 == LoadTileDimension
    }

    /** `MapMaker::new`: default tiles, zoom 4, load pixel (256 * 4, 256 * 5), an empty manager. */
    constructor ()
      ensures Valid() && fresh(tiles) && fresh(tileManager)
      ensures forall x, y | 0 <= x < LoadTileDimension && 0 <= y < LoadTileDimension :: tiles[x, y] == DefaultTile()
      ensures zoomLevel == 4 && loadPixel == (1024, 1280)
      ensures tileManager.tileDict == map[] && tileManager.loadQueue == []
    {
      tiles := new Tile[LoadTileDimension, LoadTileDimension]((x, y) => DefaultTile());
      zoomLevel := 4;
      loadPixel := (256 * 4, 256 * 5);
      tileManager := new TileManager();
    }

    /**
      `get_tile_imgs`: the image of every cell, in the same place.
     */
    method GetTileImgs() returns (imgs: array2<seq<byte>>)
      requires Valid()
      ensures fresh(imgs) && imgs.Length0 == LoadTileDimension && imgs.Length1 == LoadTileDimension
      ensures forall x, y | 0 <= x < LoadTileDimension && 0 <= y < LoadTileDimension ::
                imgs[x, y] == tiles[x, y].image
    {
      imgs := new seq<byte>[LoadTileDimension, LoadTileDimension]((x, y) => []);
      for x := 0 to LoadTileDimension
        invariant forall i, j | 0 <= i < x && 0 <= j < LoadTileDimension :: imgs[i, j] == tiles[i, j].image
      {
        for y := 0 to LoadTileDimension
          invariant forall i, j | 0 <= i < x && 0 <= j < LoadTileDimension :: imgs[i, j] == tiles[i, j].image
          invariant forall j | 0 <= j < y :: imgs[x, j] == tiles[x, j].image
        {
          imgs[x, y] := tiles[x, y].image;
        }
      }
    }

    /** The cells' records, as a value. */
    ghost function Cells(): (cells: seq<seq<Tile>>)
      requires Valid()
      reads tiles
      ensures |cells| == LoadTileDimension
      ensures forall i | 0 <= i < LoadTileDimension :: |cells[i]| == LoadTileDimension
      ensures forall i, j | 0 <= i < LoadTileDimension && 0 <= j < LoadTileDimension :: cells[i][j] == tiles[i, j]
    {
      seq(LoadTileDimension, i requires 0 <= i < LoadTileDimension reads tiles =>
        seq(LoadTileDimension, j requires 0 <= j < LoadTileDimension reads tiles => tiles[i, j]))
    }

    /** The manager after `populate_tiles` has looked up `prefix`, started on `dict0` and `queue0`. */
    ghost predicate LookedUp(dict0: map<Coord, Tile>, queue0: seq<Coord>, prefix: seq<Coord>)
      reads tileManager
    {
      && tileManager.tileDict == TouchAll(dict0, prefix)
      && tileManager.loadQueue == queue0 + QueuedOf(dict0, prefix)
    }

    /**
      The cells after `populate_tiles` has visited every cell before (x, y),
      started on a cache `dict0` and cells `cells0`.
     */
    ghost predicate ShownUpTo(dict0: map<Coord, Tile>, cells0: seq<seq<Tile>>,
                              center: (int, int), zoom: u8, x: int, y: int)
      requires Valid()
      requires |cells0| == LoadTileDimension && forall i | 0 <= i < LoadTileDimension :: |cells0[i]| == LoadTileDimension
      reads tiles
    {
      forall i, j | 0 <= i < LoadTileDimension && 0 <= j < LoadTileDimension ::
        tiles[i, j] == if i < x || (i == x && j < y) then CellRecord(dict0, center, zoom, i, j, cells0[i][j])
                       else cells0[i][j]
    }

    /** Having visited a whole row is having visited everything before the next one. */
    lemma ShownNextRow(dict0: map<Coord, Tile>, cells0: seq<seq<Tile>>, center: (int, int), zoom: u8, x: int)
      requires Valid()
      requires |cells0| == LoadTileDimension && forall i | 0 <= i < LoadTileDimension :: |cells0[i]| == LoadTileDimension
      requires ShownUpTo(dict0, cells0, center, zoom, x, LoadTileDimension)
      ensures ShownUpTo(dict0, cells0, center, zoom, x + 1, 0)
    {
    }

    /**
      `populate_tiles`: look up every tile of the window around the load
      pixel, queue those reported `NotLoaded`, and show each looked-up record
      in its cell; cells off the positive quadrant keep what they showed.
     */
    method PopulateTiles()
      requires Valid()
      modifies tiles, tileManager
      ensures tileManager.tileDict == TouchAll(old(tileManager.tileDict), Window(CenterTile(loadPixel), zoomLevel))
      ensures tileManager.loadQueue ==
                old(tileManager.loadQueue) + QueuedOf(old(tileManager.tileDict), Window(CenterTile(loadPixel), zoomLevel))
      ensures forall x, y | 0 <= x < LoadTileDimension && 0 <= y < LoadTileDimension ::
                tiles[x, y] == CellRecord(old(tileManager.tileDict), CenterTile(loadPixel), zoomLevel, x, y, old(tiles[x, y]))
    {
      var center := CenterTile(loadPixel);
      var zoom := zoomLevel;
      ghost var dict0, queue0, cells0 := tileManager.tileDict, tileManager.loadQueue, Cells();
      ghost var visited: seq<Coord> := [];
      for x := 0 to LoadTileDimension
        invariant visited == WindowPrefix(center, zoom, LoadTileDimension * x)
        invariant LookedUp(dict0, queue0, visited)
        invariant ShownUpTo(dict0, cells0, center, zoom, x, 0)
      {
        visited := PopulateRow(center, zoom, x, dict0, queue0, cells0, visited);
        assert LoadTileDimension * x + LoadTileDimension == LoadTileDimension * (x + 1);
      }
      assert forall i, j | 0 <= i < LoadTileDimension && 0 <= j < LoadTileDimension :: cells0[i][j] == old(tiles[i, j]);
    }

    /** The inner loop of `populate_tiles`, over row x of the cells. */
    method PopulateRow(center: (int, int), zoom: u8, x: int,
                       ghost dict0: map<Coord, Tile>, ghost queue0: seq<Coord>, ghost cells0: seq<seq<Tile>>,
                       ghost prefix: seq<Coord>)
      returns (ghost visited: seq<Coord>)
      requires Valid()
      requires 0 <= x < LoadTileDimension
      requires |cells0| == LoadTileDimension && forall i | 0 <= i < LoadTileDimension :: |cells0[i]| == LoadTileDimension
      requires prefix == WindowPrefix(center, zoom, LoadTileDimension * x)
      requires LookedUp(dict0, queue0, prefix)
      requires ShownUpTo(dict0, cells0, center, zoom, x, 0)
      modifies tiles, tileManager
      ensures visited == WindowPrefix(center, zoom, LoadTileDimension * x + LoadTileDimension)
      ensures LookedUp(dict0, queue0, visited)
      ensures ShownUpTo(dict0, cells0, center, zoom, x + 1, 0)
    {
      visited := prefix;
      for y := 0 to LoadTileDimension
        invariant visited == WindowPrefix(center, zoom, LoadTileDimension * x + y)
        invariant LookedUp(dict0, queue0, visited)
        invariant ShownUpTo(dict0, cells0, center, zoom, x, y)
      {
        WindowPrefixStep(center, zoom, x, y);
        PopulateCell(center, zoom, x, y, dict0, queue0, cells0, visited);
        visited := visited + Visit(CellCoord(center, zoom, x, y));
      }
      ShownNextRow(dict0, cells0, center, zoom, x);
    }

    /**
      The loop body of `populate_tiles` for cell (x, y): look the cell's tile
      up (if it has one), queue it when it is reported `NotLoaded`, and show
      the record in the cell.
     */
    method PopulateCell(center: (int, int), zoom: u8, x: int, y: int,
                        ghost dict0: map<Coord, Tile>, ghost queue0: seq<Coord>, ghost cells0: seq<seq<Tile>>,
                        ghost prefix: seq<Coord>)
      requires Valid()
      requires 0 <= x < LoadTileDimension && 0 <= y < LoadTileDimension
      requires |cells0| == LoadTileDimension && forall i | 0 <= i < LoadTileDimension :: |cells0[i]| == LoadTileDimension
      requires LookedUp(dict0, queue0, prefix)
      requires ShownUpTo(dict0, cells0, center, zoom, x, y)
      modifies tiles, tileManager
      ensures LookedUp(dict0, queue0, prefix + Visit(CellCoord(center, zoom, x, y)))
      ensures ShownUpTo(dict0, cells0, center, zoom, x, y + 1)
    {
      var tileX := center.0 + (x - 2);
      var tileY := center.1 + (y - 2);
      if tileX > 0 && tileY > 0 {
        var targetUrl := Coord(ToU32(tileX), ToU32(tileY), zoom);
        assert Visit(CellCoord(center, zoom, x, y)) == [targetUrl];
        var targetTile := LookUpCell(targetUrl, dict0, queue0, prefix);
        tiles[x, y] := targetTile;
      } else {
        assert prefix + Visit(CellCoord(center, zoom, x, y)) == prefix;
      }
    }

    /** `get_tile` on a cell's tile, then `queue_tile_load` when it is reported `NotLoaded`. */
    method LookUpCell(targetUrl: Coord, ghost dict0: map<Coord, Tile>, ghost queue0: seq<Coord>, ghost prefix: seq<Coord>)
      returns (targetTile: Tile)
      requires LookedUp(dict0, queue0, prefix)
      modifies tileManager
      ensures targetTile == Lookup(dict0, targetUrl)
      ensures LookedUp(dict0, queue0, prefix + [targetUrl])
    {
      ghost var next := prefix + [targetUrl];
      assert next[..|prefix|] == prefix;
      TileLemmas.LookupAfterTouchAll(dict0, prefix, targetUrl);
      targetTile := tileManager.GetTile(targetUrl);
      if targetTile.state == NotLoaded {
        tileManager.QueueTileLoad(targetUrl);
      }
    }

    /**
      The `LoadedImage(loaded)` arm of `update`: with records to ingest it
      ingests them, repopulates the window and drains the queue into a new
      load; with none it changes nothing.
     */
    method UpdateLoadedImage(loaded: seq<Tile>) returns (cmd: Command)
      requires Valid()
      modifies tiles, tileManager
      ensures |loaded| == 0 ==>
                cmd == NoCommand && tileManager.tileDict == old(tileManager.tileDict) &&
                tileManager.loadQueue == old(tileManager.loadQueue) &&
                forall x, y | 0 <= x < LoadTileDimension && 0 <= y < LoadTileDimension :: tiles[x, y] == old(tiles[x, y])
      ensures |loaded| > 0 ==>
                var ingested := IngestAll(old(tileManager.tileDict), loaded);
                var w := Window(CenterTile(loadPixel), zoomLevel);
                && cmd == PerformLoad(old(tileManager.loadQueue) + QueuedOf(ingested, w))
                && tileManager.tileDict == TouchAll(ingested, w)
                && tileManager.loadQueue == []
                && forall x, y | 0 <= x < LoadTileDimension && 0 <= y < LoadTileDimension ::
                     tiles[x, y] == CellRecord(ingested, CenterTile(loadPixel), zoomLevel, x, y, old(tiles[x, y]))
    {
      if |loaded| > 0 {
        tileManager.IngestLoadedTiles(loaded);
        PopulateTiles();
        var batch := tileManager.GenerateAsyncLoad();
        return PerformLoad(batch);
      }
      return NoCommand;
    }

    /**
      The `ZoomIn` arm of `update`: zoom in one level, repopulate, and drain
      the queue into a new load. `scaledPixel` is the load pixel after the
      f32 doubling, already truncated.
     */
    method UpdateZoomIn(scaledPixel: (int, int)) returns (cmd: Command)
      requires Valid()
      requires zoomLevel < 255
      modifies this, tiles, tileManager
      ensures zoomLevel == old(zoomLevel) + 1 && loadPixel == scaledPixel
      ensures cmd == PerformLoad(old(tileManager.loadQueue) +
                                 QueuedOf(old(tileManager.tileDict), Window(CenterTile(scaledPixel), zoomLevel)))
      ensures tileManager.tileDict == TouchAll(old(tileManager.tileDict), Window(CenterTile(scaledPixel), zoomLevel))
      ensures tileManager.loadQueue == []
      ensures forall x, y | 0 <= x < LoadTileDimension && 0 <= y < LoadTileDimension ::
                tiles[x, y] == CellRecord(old(tileManager.tileDict), CenterTile(scaledPixel), zoomLevel, x, y, old(tiles[x, y]))
    {
      zoomLevel := zoomLevel + 1;
      loadPixel := scaledPixel;
      PopulateTiles();
      var batch := tileManager.GenerateAsyncLoad();
      return PerformLoad(batch);
    }

    /**
      The `ZoomOut` arm of `update`: zoom out one level, repopulate, and
      drain the queue into a new load. `scaledPixel` is the load pixel after
      the f32 halving, already truncated.
     */
    method UpdateZoomOut(scaledPixel: (int, int)) returns (cmd: Command)
      requires Valid()
      requires zoomLevel > 0
      modifies this, tiles, tileManager
      ensures zoomLevel == old(zoomLevel) - 1 && loadPixel == scaledPixel
      ensures cmd == PerformLoad(old(tileManager.loadQueue) +
                                 QueuedOf(old(tileManager.tileDict), Window(CenterTile(scaledPixel), zoomLevel)))
      ensures tileManager.tileDict == TouchAll(old(tileManager.tileDict), Window(CenterTile(scaledPixel), zoomLevel))
      ensures tileManager.loadQueue == []
      ensures forall x, y | 0 <= x < LoadTileDimension && 0 <= y < LoadTileDimension ::
                tiles[x, y] == CellRecord(old(tileManager.tileDict), CenterTile(scaledPixel), zoomLevel, x, y, old(tiles[x, y]))
    {
      zoomLevel := zoomLevel - 1;
      loadPixel := scaledPixel;
      PopulateTiles();
      var batch := tileManager.GenerateAsyncLoad();
      return PerformLoad(batch);
    }
  }
}
