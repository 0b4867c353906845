# map_maker: the tile manager and the tile window, in Dafny

map_maker is a slippy-map viewer. It shows a 5x5 block of map tiles around
a *load pixel*. Tiles come from a tile server, and a `TileManager` caches
them, keyed by `(x, y, zoom)`.

- **Cache and queue.** Looking up a tile that is not cached inserts a
  placeholder (`NotLoaded`). The application queues every lookup that comes
  back `NotLoaded`.
- **Loading.** Draining the queue gives one batch. Fetching the batch
  returns the placeholders, followed by each fetch outcome.
- **Write-back.** Every returned record is written back into the cache and
  forced to `Loaded`.

This project models:

- the tile records and the URL of a tile;
- the manager's cache and queue, as a class;
- the batch fetch, with the network as a parameter;
- the write-back;
- the application's `populate_tiles` over the 5x5 array of cells.

It also models the `LoadedImage`, `ZoomIn` and `ZoomOut` arms of `update`,
reduced to their effect on the cache, the queue, the zoom level and the
cells.

Modules:

- `Wrappers`: `Option` and `Result`.
- `Decimal`: the decimal spelling of a natural number, and its value.
- `Tiles`:
  - the records;
  - `Tile::new` and `Tile::default`;
  - the tile URL and a parser that reads it back;
  - `load_tile` and `load_tiles`;
  - the `TileManager` class (`tile_dict` as a `map`, `load_queue` as a
    `seq`, with methods for `new`, `get_tile`, `queue_tile_load`,
    `ingest_loaded_tiles` and `generate_async_load`);
  - the functions that specify those methods (`Lookup`, `Touch`,
    `TouchAll`, `IngestAll`).
- `TileLemmas`: properties of the cache, of ingestion and of the URL
  format.
- `Viewport`:
  - isize division and the `as u32` cast;
  - the centre tile;
  - the sequence of tiles `populate_tiles` looks up (`Window`), and the
    part of it that gets queued (`QueuedOf`);
  - lemmas on both.
- `App`:
  - `MyMessage`;
  - the command `update` returns;
  - `process_load`;
  - the `MapMaker` class, with the 5x5 `array2` of cells and the methods
    for `new`, `get_tile_imgs`, `populate_tiles` and the three arms of
    `update`.

Environment:

- **Network.** A `Fetcher` (a function from a URL to `Some(bytes)` or
  `None`) stands for the network. `None` covers both failures the code
  handles, a failed send and a failed body read.
- **Concurrency.** `join_all` is modelled as an in-order map, which is what
  it returns.
- **Commands.** A `Command::perform(future, process_load)` is modelled as
  `PerformLoad(batch)`, where `batch` is the queue the future was built
  from. `RunLoad` is what the runtime does with it.

Two consequences of the code that a reader might not expect:

- **A failed fetch does not leave the tile `NotLoaded`.** `load_tile`
  returns the placeholder unchanged (`NotLoaded`, no image), and
  `load_tiles` puts it after the placeholders. `ingest_loaded_tiles` then
  forces every record it writes to `Loaded`. So the tile ends `Loaded` with
  an empty image. Lookups and later ingestions keep it `Loaded`, so no
  later `populate_tiles` queues it again. `TileLemmas.IngestLoadResults`,
  `App.LoadedStaysLoaded` and `App.LoadedBatchNotRequeued` state this.
- **Placeholders in the batch.** `load_tiles` returns the n placeholders
  and then the n outcomes, 2n records in all. Only the outcomes survive
  ingestion, because each comes after its key's placeholder.

## Model

| member | source | states |
|---|---|---|
| Tiles.NewTile | map_maker/src/tile_manager.rs:20-26 | a new tile has the given key, no image, and state `NotLoaded` |
| Tiles.DefaultTile | map_maker/src/tile_manager.rs:28-36 | the default tile is the placeholder of key (0, 0, 0) |
| Tiles.LoadTile | map_maker/src/tile_manager.rs:86-107 | the result is always `Ok` and keeps the key; a successful fetch of the tile's URL gives the body as the image and state `Loaded`; a failed one gives the tile back unchanged |
| Tiles.LoadTiles | map_maker/src/tile_manager.rs:122-142 | the answer is always `Some`, with 2n records: the placeholder of each coordinate in order, then the `load_tile` outcome of each in order |
| Tiles.TileManager.constructor | map_maker/src/tile_manager.rs:55-61 | a new manager has an empty cache and an empty queue |
| Tiles.TileManager.GetTile | map_maker/src/tile_manager.rs:63-79 | a cached key gives its record and leaves the cache alone; an absent key gives a fresh placeholder, which is inserted; the queue is unchanged |
| Tiles.TileManager.QueueTileLoad | map_maker/src/tile_manager.rs:81-84 | the key is appended to the queue, duplicates included; the cache is unchanged |
| Tiles.TileManager.IngestLoadedTiles | map_maker/src/tile_manager.rs:108-113 | the cache becomes `IngestAll` of the old cache: each record in order, marked `Loaded`, overwrites its key; the queue is unchanged |
| Tiles.TileManager.GenerateAsyncLoad | map_maker/src/tile_manager.rs:115-120 | the batch is the whole old queue, the queue becomes empty, and the cache is unchanged |
| TileLemmas.GetTileTwice | map_maker/src/tile_manager.rs:63-79 | a second lookup of a key returns what the first returned and changes nothing; the first adds only that key, with a placeholder, when it was absent |
| TileLemmas.LookupAfterTouchAll | map_maker/src/tile_manager.rs:63-79 | the record a lookup returns does not depend on which other lookups came before it |
| TileLemmas.TouchAllKeys | map_maker/src/tile_manager.rs:63-79 | after a series of lookups the cache holds exactly the old keys plus the looked-up ones, and old entries are unchanged |
| TileLemmas.IngestAllAt | map_maker/src/tile_manager.rs:108-113 | after ingestion a key that occurs among the records holds its last record, marked `Loaded`; any other key keeps its entry, or stays absent |
| TileLemmas.IngestedAreLoaded | map_maker/src/tile_manager.rs:108-113 | every key written by ingestion is present and `Loaded`, with a record for that key |
| TileLemmas.IngestLoadResults | map_maker/src/tile_manager.rs:99-106 | after the results of a batch are ingested, every coordinate of the batch is `Loaded`, with the fetched body on success and an empty image on failure |
| TileLemmas.IngestLoadResultsElsewhere | map_maker/src/tile_manager.rs:128-141 | ingesting the results of a batch leaves every key outside the batch as it was, present or absent |
| TileLemmas.TileUrlShape | map_maker/src/tile_manager.rs:92-95 | `TileUrl` is the tile server's address `https://stamen-tiles.a.ssl.fastly.net/terrain/`, then a path, then `.png` |
| TileLemmas.ParseTileUrlOfTileUrl | map_maker/src/tile_manager.rs:92-95 | the tile URL (server, then zoom, x and y in decimal, then `.png`) reads back as the tile it names |
| TileLemmas.TileUrlInjective | map_maker/src/tile_manager.rs:92-95 | different tiles are fetched from different URLs |
| Decimal.ValueOfFormat | map_maker/src/tile_manager.rs:92-95 | the decimal spelling of a number has that number as its value |
| Viewport.TruncDiv | map_maker/src/main.rs:112 | isize division by a positive divisor rounds toward zero: the bounds on the quotient for a dividend of either sign |
| Viewport.ToU32 | map_maker/src/main.rs:120 | `as u32` is the identity on values that fit in 32 bits |
| Viewport.ToU32Injective | map_maker/src/main.rs:120 | two integers less than 2^32 apart with the same `as u32` image are equal |
| Viewport.CenterTile | map_maker/src/main.rs:110-112 | the centre tile is each load-pixel coordinate divided by 256, rounded toward zero: a non-negative coordinate lies in its tile's 256-pixel span, and a negative one maps to the tile rounded up toward 0 |
| Viewport.CellCoordCases | map_maker/src/main.rs:117-120 | `CellCoord`: cell (x, y) has a tile exactly when both tile coordinates (centre + offset - 2) are positive; the tile's zoom is the zoom level, and its x and y are those coordinates wherever they are below 2^32 |
| Viewport.WindowPrefixStep | map_maker/src/main.rs:115-119 | visiting cell (x, y) extends the lookups by that cell's tile when both of its coordinates are positive, and by nothing otherwise |
| Viewport.CellInjective | map_maker/src/main.rs:115-120 | two cells of the window never name the same tile, even when `as u32` wraps |
| Viewport.WindowPrefixMembers | map_maker/src/main.rs:115-120 | the first k cells give at most k tiles, and exactly the tiles of those cells |
| Viewport.WindowPrefixDistinct | map_maker/src/main.rs:115-120 | the first k cells never give the same tile twice |
| Viewport.WindowPrefixFacts | map_maker/src/main.rs:115-120 | the first k cells give at most k tiles, no tile twice, and exactly the tiles of those cells |
| Viewport.WindowExactly | map_maker/src/main.rs:110-120 | the tiles looked up are exactly (tx, ty, zoom) with tx, ty >= 1 within 2 of the centre tile (after `as u32`), each once, at most 25 |
| Viewport.CellBefore | map_maker/src/main.rs:115-116 | without wrap-around, an earlier cell names an earlier tile, x-major then y |
| Viewport.WindowPrefixOrdered | map_maker/src/main.rs:115-116 | without wrap-around, the tiles are looked up x-major, then by y |
| Viewport.QueuedOfFacts | map_maker/src/main.rs:121-124 | the queued part of the lookups is no longer than they are, holds exactly the looked-up tiles reported `NotLoaded`, and keeps their order |
| App.ProcessLoad | map_maker/src/main.rs:143-148 | `Some(tiles)` becomes `LoadedImage(tiles)` and `None` becomes `ImageLoadFailed` (both directions) |
| App.RunLoad | map_maker/src/main.rs:143-148 | running a load command always yields `LoadedImage` carrying the 2n records `load_tiles` returns, never `ImageLoadFailed` |
| App.LoadedStaysLoaded | map_maker/src/tile_manager.rs:63-113 | a cached `Loaded` entry stays cached and `Loaded` through any sequence of lookups (`get_tile`) and ingestions (`ingest_loaded_tiles`) |
| App.LoadedBatchNotRequeued | map_maker/src/main.rs:119-124 | once a batch is fetched and ingested, no later `populate_tiles` queues any coordinate of it again, whatever lookups and ingestions came in between, including for coordinates whose fetch failed |
| App.PopulateQueue | map_maker/src/main.rs:115-124 | `populate_tiles` queues only window tiles a lookup reports `NotLoaded`, each at most once, at most 25, x-major when the window does not wrap; afterwards every window tile is cached |
| App.MapMaker.constructor | map_maker/src/main.rs:169-195 | every cell holds the default tile, the zoom level is 4, the load pixel is (1024, 1280), and the manager is empty |
| App.MapMaker.GetTileImgs | map_maker/src/main.rs:99-107 | a fresh 5x5 array whose cell [x][y] is the image of cell [x][y] |
| App.MapMaker.PopulateTiles | map_maker/src/main.rs:109-136 | the cache becomes the old one after looking up the whole window; the queue gains the lookups reported `NotLoaded`, in order; each cell shows the record looked up for it, and cells off the positive quadrant keep their old record |
| App.MapMaker.PopulateRow | map_maker/src/main.rs:116-134 | one row of `populate_tiles`: the cache, the queue and the cells advance by that row's five cells |
| App.MapMaker.PopulateCell | map_maker/src/main.rs:117-133 | one cell of `populate_tiles`: the lookups advance by that cell's tile, if it has one, and only that cell changes |
| App.MapMaker.LookUpCell | map_maker/src/main.rs:121-131 | the lookup returns the record the starting cache gives the tile, and the cache and queue advance by that one lookup |
| App.MapMaker.UpdateLoadedImage | map_maker/src/main.rs:203-215 | with records: ingest them, repopulate over the ingested cache, drain the queue (old queue plus new `NotLoaded` lookups) into the returned load, leaving it empty; without records: return no command and change nothing |
| App.MapMaker.UpdateZoomIn | map_maker/src/main.rs:216-227 | the zoom level goes up by one and the load pixel becomes the scaled one; the window at the new zoom is repopulated; the old queue plus the new `NotLoaded` lookups become the returned load, and the queue is emptied |
| App.MapMaker.UpdateZoomOut | map_maker/src/main.rs:228-238 | the zoom level goes down by one and the load pixel becomes the scaled one; the window at the new zoom is repopulated; the old queue plus the new `NotLoaded` lookups become the returned load, and the queue is emptied |

## Left out

- The widgets, `view`, `title`, `print_tiles`, `velocity_wait`, `main` and the logger are left out. They draw, print, sleep or log, and none of them changes the cache, the queue or the cells.
- The HTTP client (`reqwest`, its `Arc`) is left out. The `Fetcher` parameter stands for it, so connection reuse and response status codes are not modelled.
- The asynchronous runtime is left out. So are the order in which fetches finish and any interleaving of `update` with a running load. `join_all` is taken as an in-order map.
- The `CenterPosition`, `VelocityEvent` and `ImageLoadFailed` arms of `update` are left out. The first two are outside the modelled core, and the last only logs. They appear only as constructors of `Message`.
- The `Loading` state is declared but not modelled further, because no code path enters it.
- The load pixel is an `(f32, f32)` in `MapMaker`. The model takes it as the `isize` pair the cast at the start of `populate_tiles` produces. Floating point is not modelled.
- UpdateZoomIn, UpdateZoomOut: the f32 doubling or halving of the load pixel is not modelled. Its truncated result is the `scaledPixel` parameter.
- UpdateZoomIn, UpdateZoomOut: they require that the `u8` zoom level neither overflows nor underflows. A debug build panics there, and a release build would wrap, which is not modelled.
- `generate_async_load` hands back the future that runs `load_tiles`. The model returns its batch, and `RunLoad` runs it.
- TileLemmas.IngestLoadResults: a coordinate queued twice in one batch gets one fetch outcome for both of its requests, because the `Fetcher` is keyed on the URL alone. `load_tiles` sends one request per queue entry, so one request may succeed and the other fail, and the last record wins. The application never queues a tile twice in one batch: one `populate_tiles` looks up each tile at most once (`App.PopulateQueue`), and every arm of `update` that populates drains the queue right after.
- Viewport.WindowPrefixOrdered: the x-major order of the queue is proved only when no tile coordinate of the window reaches 2^32, because `as u32` can reorder tiles past that point.
- The `MapMaker` fields `zoom_in_state`, `zoom_out_state`, `cur_coords`, `client` and `tile_state` are left out. They hold widget state, the unused current coordinates and the HTTP client.
