/**
  The tile manager of map_maker: a cache from tile coordinates to tile
  records that creates entries on first lookup, a queue of coordinates
  waiting to be fetched, the batch fetch itself, and the write-back of
  fetched records into the cache.

  The HTTP client is replaced by a `Fetcher` oracle from a URL to the bytes of
  the response body, or `None` when either sending the request or reading its
  body fails. Rust's `join_all` is modelled as an in-order sequential map,
  which is what it returns.
 */
module Tiles {
  import opened Wrappers
  import Decimal

  type u32 = n: int | 0 <= n < 0x1_0000_0000
  type byte = b: int | 0 <= b < 0x100

  /** A tile key, `(x, y, zoom)` in that order, as the field `target_url` holds it. */
  datatype Coord = Coord(x: u32, y: u32, z: u32)

  datatype TileState = NotLoaded | Loading | Loaded

  datatype Tile = Tile(targetUrl: Coord, image: seq<byte>, state: TileState)

  /** The network: the body of the response to a GET of a URL, or `None` when sending the request or reading its body fails. */
  type Fetcher = string -> Option<seq<byte>>

  /** The error type of `load_tile`'s result; the code never produces it. */
  datatype FetchError = RequestError

  /** `Tile::new`: a placeholder for `targetUrl`, not loaded and without image. */
  function NewTile(targetUrl: Coord): (t: Tile)
    ensures t.targetUrl == targetUrl && t.image == [] && t.state == NotLoaded
  {
    Tile(targetUrl, [], NotLoaded)
  }

  /** `Tile::default`: the placeholder of the origin tile at zoom 0. */
  function DefaultTile(): (t: Tile)
    ensures t == NewTile(Coord(0, 0, 0))
  {
    Tile(Coord(0, 0, 0), [], NotLoaded)
  }

  const TileServer: string := "https://stamen-tiles.a.ssl.fastly.net/terrain/"

  /** The address of a tile image: the server, then zoom, x and y, then ".png". */
  function TileUrl(c: Coord): string {
    TileServer + Decimal.Format(c.z) + "/" + Decimal.Format(c.x) + "/" + Decimal.Format(c.y) + ".png"
  }

  /** The prefix of `s` before its first '/', and what follows that '/'. */
  function SplitSlash(s: string): (string, string) {
    if s == [] then ([], [])
    else if s[0] == '/' then ([], s[1..])
    else
      var (before, after) := SplitSlash(s[1..]);
      ([s[0]] + before, after)
  }

  /** A u32 spelled in decimal, if `s` is one. */
  function ParseU32(s: string): Option<u32> {
    if s != [] && Decimal.AllDigits(s) && Decimal.Value(s) < 0x1_0000_0000
    then Some(Decimal.Value(s))
    else None
  }

  /** The tile a URL of the form `TileUrl` addresses: reads zoom, then x, then y. */
  function ParseTileUrl(s: string): Option<Coord> {
    if |s| < |TileServer| + 4 || s[..|TileServer|] != TileServer || s[|s| - 4..] != ".png" then None
    else
      var (zs, rest) := SplitSlash(s[|TileServer|..|s| - 4]);
      var (xs, ys) := SplitSlash(rest);
      match (ParseU32(zs), ParseU32(xs), ParseU32(ys))
      case (Some(z), Some(x), Some(y)) => Some(Coord(x, y, z))
      case _ => None
  }

  /**
    `TileManager::load_tile`: fetch the image of `requestTile`. On success the
    image is the body and the state `Loaded`; on any failure the tile comes
    back as it went in. The result is never `Err`.
   */
  function LoadTile(fetch: Fetcher, requestTile: Tile): (r: Result<Tile, FetchError>)
    ensures r.Ok? && r.value.targetUrl == requestTile.targetUrl
    ensures fetch(TileUrl(requestTile.targetUrl)).Some? ==>
              r.value.image == fetch(TileUrl(requestTile.targetUrl)).value && r.value.state == Loaded
    ensures fetch(TileUrl(requestTile.targetUrl)).None? ==> r.value == requestTile
  {
    match fetch(TileUrl(requestTile.targetUrl))
    case Some(bytes) => Ok(requestTile.(image := bytes, state := Loaded))
    case None => Ok(requestTile)
  }

  /** One fresh placeholder per coordinate, in order. */
  function Placeholders(coords: seq<Coord>): seq<Tile> {
    seq(|coords|, i requires 0 <= i < |coords| => NewTile(coords[i]))
  }

  /** The outcome of `load_tile` on each coordinate's placeholder, in order. */
  function Fetched(fetch: Fetcher, coords: seq<Coord>): seq<Tile> {
    seq(|coords|, i requires 0 <= i < |coords| => LoadTile(fetch, NewTile(coords[i])).value)
  }

  /** What `load_tiles` hands back: the placeholders, followed by the fetch outcomes. */
  function LoadResults(fetch: Fetcher, coords: seq<Coord>): seq<Tile> {
    Placeholders(coords) + Fetched(fetch, coords)
  }

  /**
    `TileManager::load_tiles`: builds the placeholder vector, fetches every
    placeholder, and pushes each `Ok` outcome onto the same vector. Since
    `load_tile` never fails, the result holds 2n records.
   */
  method LoadTiles(fetch: Fetcher, loadCoords: seq<Coord>) returns (r: Option<seq<Tile>>)
    ensures r == Some(LoadResults(fetch, loadCoords))
    ensures |r.value| == 2 * |loadCoords|
    ensures forall i | 0 <= i < |loadCoords| ::
              r.value[i] == NewTile(loadCoords[i]) &&
              r.value[|loadCoords| + i] == LoadTile(fetch, NewTile(loadCoords[i])).value
  {
    var returnTiles := seq(|loadCoords|, i requires 0 <= i < |loadCoords| => NewTile(loadCoords[i]));
    var tileResults := seq(|returnTiles|, i requires 0 <= i < |returnTiles| => LoadTile(fetch, returnTiles[i]));
    for i := 0 to |tileResults|
      invariant returnTiles == Placeholders(loadCoords) + Fetched(fetch, loadCoords)[..i]
    {
      match tileResults[i]
      case Ok(tile) =>
        returnTiles := returnTiles + [tile];
      case Err(_) =>
    }
    assert Fetched(fetch, loadCoords)[..|tileResults|] == Fetched(fetch, loadCoords);
    return Some(returnTiles);
  }

  /** The record `get_tile` returns for `c` when the cache is `m`. */
  function Lookup(m: map<Coord, Tile>, c: Coord): Tile {
    if c in m then m[c] else NewTile(c)
  }

  /** The cache after `get_tile(c)`: an absent key gains its placeholder. */
  function Touch(m: map<Coord, Tile>, c: Coord): map<Coord, Tile> {
    if c in m then m else m[c := NewTile(c)]
  }

  /** The cache after `get_tile` on each coordinate of `cs` in turn. */
  function TouchAll(m: map<Coord, Tile>, cs: seq<Coord>): map<Coord, Tile> {
    if cs == [] then m else Touch(TouchAll(m, cs[..|cs| - 1]), cs[|cs| - 1])
  }

  /** The cache after `ingest_loaded_tiles(ts)`: each record, marked loaded, overwrites its key. */
  function IngestAll(m: map<Coord, Tile>, ts: seq<Tile>): map<Coord, Tile> {
    if ts == [] then m
    else
      var t := ts[|ts| - 1].(state := Loaded);
      IngestAll(m, ts[..|ts| - 1])[t.targetUrl := t]
  }

  /** The index of the last record of `ts` for `c`, or -1 when there is none. */
  function LastWith(ts: seq<Tile>, c: Coord): (i: int)
    ensures -1 <= i < |ts|
    ensures 0 <= i ==> ts[i].targetUrl == c
    ensures forall j | i < j < |ts| :: ts[j].targetUrl != c
  {
    if ts == [] then -1
    else if ts[|ts| - 1].targetUrl == c then |ts| - 1
    else LastWith(ts[..|ts| - 1], c)
  }

  /** `TileManager`, without its HTTP client. */
  class TileManager {
    var tileDict: map<Coord, Tile>
    var loadQueue: seq<Coord>

    /** `TileManager::new`: an empty cache and an empty queue. */
    constructor ()
      ensures tileDict == map[] && loadQueue == []
    {
      tileDict := map[];
      loadQueue := [];
    }

    /**
      `get_tile`: the cached record for `coords`, which is created as a
      placeholder when the key is absent. The queue does not change.
     */
    method GetTile(coords: Coord) returns (tile: Tile)
      modifies this
      ensures coords in old(tileDict) ==> tile == old(tileDict)[coords] && tileDict == old(tileDict)
      ensures coords !in old(tileDict) ==>
                tile == Tile(coords, [], NotLoaded) && tileDict == old(tileDict)[coords := tile]
      ensures tile == Lookup(old(tileDict), coords) && tileDict == Touch(old(tileDict), coords)
      ensures loadQueue == old(loadQueue)
    {
      if coords in tileDict {
        // `get_tile` matches on the state, and every arm returns a clone
        tile := tileDict[coords];
      } else {
        tile := NewTile(coords);
        tileDict := tileDict[coords := tile];
      }
    }

    /** `queue_tile_load`: append `coords` to the queue, duplicates included. */
    method QueueTileLoad(coords: Coord)
      modifies this
      ensures loadQueue == old(loadQueue) + [coords]
      ensures tileDict == old(tileDict)
    {
      loadQueue := loadQueue + [coords];
    }

    /**
      `ingest_loaded_tiles`: for each record in order, force its state to
      `Loaded` and insert it at its key, replacing what was there.
     */
    method IngestLoadedTiles(newTiles: seq<Tile>)
      modifies this
      ensures tileDict == IngestAll(old(tileDict), newTiles)
      ensures loadQueue == old(loadQueue)
    {
      for i := 0 to |newTiles|
        invariant tileDict == IngestAll(old(tileDict), newTiles[..i])
        invariant loadQueue == old(loadQueue)
      {
        var tile := newTiles[i].(state := Loaded);
        tileDict := tileDict[tile.targetUrl := tile];
        assert newTiles[..i + 1][..i] == newTiles[..i];
      }
      assert newTiles[..|newTiles|] == newTiles;
    }

    /**
      `generate_async_load`: take the whole queue and empty it. The returned
      batch is the input of the future `generate_async_load` returns, which runs
      `LoadTiles(fetch, batch)`.
     */
    method GenerateAsyncLoad() returns (batch: seq<Coord>)
      modifies this
      ensures batch == old(loadQueue)
      ensures loadQueue == []
      ensures tileDict == old(tileDict)
    {
      batch := loadQueue;
      loadQueue := [];
    }
  }
}
