/**
  What the tile manager's operations promise, stated over the functions that
  specify them: lazy creation in `get_tile`, last-writer-wins ingestion, the
  shape of a load batch, and what a cache looks like after a batch has been
  fetched and ingested.
 */
module TileLemmas {
  import opened Wrappers
  import Decimal
  import opened Tiles

  /**
    A second `get_tile(c)` returns the record the first one returned and
    leaves the cache as the first one left it; the first one adds at most
    the key `c`, and the record at `c` is placeholder unless already cached.
   */
  lemma GetTileTwice(m: map<Coord, Tile>, c: Coord)
    ensures Lookup(Touch(m, c), c) == Lookup(m, c)
    ensures Touch(Touch(m, c), c) == Touch(m, c)
    ensures Touch(m, c).Keys == m.Keys + {c}
    ensures forall k | k in m :: Touch(m, c)[k] == m[k]
    ensures c !in m ==> Touch(m, c)[c] == Tile(c, [], NotLoaded)
  {
  }

  /** Looking a coordinate up gives the same record whatever other lookups came first. */
  lemma {:induction false} LookupAfterTouchAll(m: map<Coord, Tile>, cs: seq<Coord>, c: Coord)
    ensures Lookup(TouchAll(m, cs), c) == Lookup(m, c)
  {
    if cs != [] {
      LookupAfterTouchAll(m, cs[..|cs| - 1], c);
    }
  }

  /** After looking up each of `cs`, the cache holds exactly the old keys and `cs`. */
  lemma {:induction false} TouchAllKeys(m: map<Coord, Tile>, cs: seq<Coord>)
    ensures forall c :: c in TouchAll(m, cs) <==> c in m || c in cs
    ensures forall c | c in m :: TouchAll(m, cs)[c] == m[c]
  {
    if cs != [] {
      var init := cs[..|cs| - 1];
      TouchAllKeys(m, init);
      assert forall c :: c in cs <==> c in init || c == cs[|cs| - 1] by {
        assert cs == init + [cs[|cs| - 1]];
      }
    }
  }

  /**
    `ingest_loaded_tiles`: a key that occurs in `ts` ends with its LAST
    record, marked `Loaded`; any other key keeps what it had, or stays absent.
   */
  lemma {:induction false} IngestAllAt(m: map<Coord, Tile>, ts: seq<Tile>, c: Coord)
    ensures LastWith(ts, c) >= 0 ==>
              c in IngestAll(m, ts) && IngestAll(m, ts)[c] == ts[LastWith(ts, c)].(state := Loaded)
    ensures LastWith(ts, c) < 0 ==>
              (c in IngestAll(m, ts) <==> c in m) && (c in m ==> IngestAll(m, ts)[c] == m[c])
  {
    if ts != [] {
      IngestAllAt(m, ts[..|ts| - 1], c);
    }
  }

  /** Ingestion forces `Loaded` on every key it writes, whatever the records said. */
  lemma IngestedAreLoaded(m: map<Coord, Tile>, ts: seq<Tile>, i: nat)
    requires i < |ts|
    ensures ts[i].targetUrl in IngestAll(m, ts)
    ensures IngestAll(m, ts)[ts[i].targetUrl].state == Loaded
    ensures IngestAll(m, ts)[ts[i].targetUrl].targetUrl == ts[i].targetUrl
  {
    IngestAllAt(m, ts, ts[i].targetUrl);
  }

  /** The image `load_tile` leaves on a placeholder for `c`: the fetched bytes, or none. */
  function FetchedImage(fetch: Fetcher, c: Coord): seq<byte> {
    match fetch(TileUrl(c))
    case Some(bytes) => bytes
    case None => []
  }

  /**
    Ingesting what `load_tiles(batch)` returns leaves every coordinate of the
    batch `Loaded`, with the fetched bytes when its fetch succeeded and with
    an empty image when it failed: the placeholders come first, so the fetch
    outcome is always the last record for its key.
   */
  lemma IngestLoadResults(m: map<Coord, Tile>, fetch: Fetcher, batch: seq<Coord>, c: Coord)
    requires c in batch
    ensures c in IngestAll(m, LoadResults(fetch, batch))
    ensures IngestAll(m, LoadResults(fetch, batch))[c] == Tile(c, FetchedImage(fetch, c), Loaded)
  {
    var ts := LoadResults(fetch, batch);
    var n := |batch|;
    var k :| 0 <= k < n && batch[k] == c;
    assert ts[n + k] == LoadTile(fetch, NewTile(batch[k])).value;
    var i := LastWith(ts, c);
    assert n <= i;
    assert ts[i] == LoadTile(fetch, NewTile(batch[i - n])).value;
    IngestAllAt(m, ts, c);
  }

  /** Ingesting the results of a batch does not touch keys outside the batch. */
  lemma IngestLoadResultsElsewhere(m: map<Coord, Tile>, fetch: Fetcher, batch: seq<Coord>, c: Coord)
    requires c !in batch
    ensures c in IngestAll(m, LoadResults(fetch, batch)) <==> c in m
    ensures c in m ==> IngestAll(m, LoadResults(fetch, batch))[c] == m[c]
  {
    var ts := LoadResults(fetch, batch);
    var n := |batch|;
    forall j | 0 <= j < |ts|
      ensures ts[j].targetUrl != c
    {
      if j < n {
        assert ts[j] == NewTile(batch[j]);
      } else {
        assert ts[j] == LoadTile(fetch, NewTile(batch[j - n])).value;
      }
    }
    IngestAllAt(m, ts, c);
  }

  /** A tile URL is the tile server's address followed by a path ending in ".png". */
  lemma TileUrlShape(c: Coord)
    ensures |TileUrl(c)| > |TileServer| + 4
    ensures TileUrl(c)[..|TileServer|] == TileServer && TileUrl(c)[|TileUrl(c)| - 4..] == ".png"
  {
  }

  /** Splitting at the first '/' recovers the part before it, when that part has none. */
  lemma {:induction false} SplitSlashAt(a: string, b: string)
    requires '/' !in a
    ensures SplitSlash(a + "/" + b) == (a, b)
  {
    if a != [] {
      assert (a + "/" + b)[1..] == a[1..] + "/" + b;
      SplitSlashAt(a[1..], b);
      assert a[0] != '/';
      assert [a[0]] + a[1..] == a;
    }
  }

  /** The decimal spelling of a u32 reads back as that u32. */
  lemma ParseFormat(n: u32)
    ensures ParseU32(Decimal.Format(n)) == Some(n)
  {
    Decimal.ValueOfFormat(n);
  }

  /**
    Reading a tile URL back gives the tile: the address names zoom, then x,
    then y, and no two tiles share an address.
   */
  lemma ParseTileUrlOfTileUrl(c: Coord)
    ensures ParseTileUrl(TileUrl(c)) == Some(c)
  {
    var zs, xs, ys := Decimal.Format(c.z), Decimal.Format(c.x), Decimal.Format(c.y);
    var s := TileUrl(c);
    var mid := zs + "/" + xs + "/" + ys;
    assert s == TileServer + mid + ".png";
    assert s[..|TileServer|] == TileServer;
    assert s[|s| - 4..] == ".png";
    assert s[|TileServer|..|s| - 4] == mid;
    assert mid == zs + "/" + (xs + "/" + ys);
    SplitSlashAt(zs, xs + "/" + ys);
    SplitSlashAt(xs, ys);
    ParseFormat(c.z);
    ParseFormat(c.x);
    ParseFormat(c.y);
  }

  /** Distinct tiles are fetched from distinct URLs. */
  lemma TileUrlInjective(a: Coord, b: Coord)
    requires TileUrl(a) == TileUrl(b)
    ensures a == b
  {
    ParseTileUrlOfTileUrl(a);
    ParseTileUrlOfTileUrl(b);
  }
}
