/**
  The neighbourhood `populate_tiles` walks: the 5x5 block of tiles around the
  tile under the load pixel, cell (x, y) covering tile
  (center.x + x - 2, center.y + y - 2), visited x-major, then y. Cells whose
  tile coordinates are not both positive are skipped. The load pixel is taken
  as already truncated from f32 to isize.
 */
module Viewport {
  import opened Wrappers
  import opened Tiles

  type u8 = n: int | 0 <= n < 0x100

  /** `LOAD_TILE_DIMENSION`: the side of the neighbourhood, in tiles. */
  const LoadTileDimension: int := 5
  /** The side of a tile, in pixels. */
  const TilePixels: int := 256
  const U32Modulus: int := 0x1_0000_0000

  /** Rust's `/` on `isize`: the quotient rounded toward zero, not down. */
  function TruncDiv(a: int, b: int): (q: int)
    requires b > 0
    ensures 0 <= a ==> 0 <= q && q * b <= a < q * b + b
    ensures a < 0 ==> q <= 0 && q * b - b < a <= q * b
  {
    if a >= 0 then a / b else -((-a) / b)
  }

  /** Rust's `as u32` on an `isize`: the low 32 bits. */
  function ToU32(i: int): (r: u32)
    ensures 0 <= i < U32Modulus ==> r == i
  {
    i % U32Modulus
  }

  /** Two integers closer than 2^32 keep their difference after `as u32`. */
  lemma ToU32Injective(a: int, b: int)
    requires -U32Modulus < a - b < U32Modulus
    requires ToU32(a) == ToU32(b)
    ensures a == b
  {
    var qa, qb := a / U32Modulus, b / U32Modulus;
    assert a == qa * U32Modulus + ToU32(a);
    assert b == qb * U32Modulus + ToU32(b);
    assert a - b == (qa - qb) * U32Modulus;
  }

  /** `center_tile`: the tile under the load pixel. */
  function CenterTile(loadPixel: (int, int)): (center: (int, int))
    ensures 0 <= loadPixel.0 ==> 0 <= center.0 && center.0 * TilePixels <= loadPixel.0 < center.0 * TilePixels + TilePixels
    ensures 0 <= loadPixel.1 ==> 0 <= center.1 && center.1 * TilePixels <= loadPixel.1 < center.1 * TilePixels + TilePixels
    ensures loadPixel.0 < 0 ==> center.0 <= 0 && center.0 * TilePixels - TilePixels < loadPixel.0 <= center.0 * TilePixels
    ensures loadPixel.1 < 0 ==> center.1 <= 0 && center.1 * TilePixels - TilePixels < loadPixel.1 <= center.1 * TilePixels
  {
    (TruncDiv(loadPixel.0, TilePixels), TruncDiv(loadPixel.1, TilePixels))
  }

  /** The tile cell (x, y) shows at `zoom`, when both of its coordinates are positive. */
  function CellCoord(center: (int, int), zoom: u8, x: int, y: int): Option<Coord> {
    var tileX := center.0 + (x - 2);
    var tileY := center.1 + (y - 2);
    if tileX > 0 && tileY > 0 then Some(Coord(ToU32(tileX), ToU32(tileY), zoom)) else None
  }

  /**
    Cell (x, y) has a tile exactly when both of its tile coordinates are
    positive; the tile is at `zoom`, and its coordinates are those tile
    coordinates wherever they fit in 32 bits.
   */
  lemma CellCoordCases(center: (int, int), zoom: u8, x: int, y: int)
    ensures CellCoord(center, zoom, x, y).Some? <==> center.0 + x - 2 >= 1 && center.1 + y - 2 >= 1
    ensures CellCoord(center, zoom, x, y).Some? ==> CellCoord(center, zoom, x, y).value.z == zoom
    ensures CellCoord(center, zoom, x, y).Some? && center.0 + x - 2 < U32Modulus ==>
              CellCoord(center, zoom, x, y).value.x == center.0 + x - 2
    ensures CellCoord(center, zoom, x, y).Some? && center.1 + y - 2 < U32Modulus ==>
              CellCoord(center, zoom, x, y).value.y == center.1 + y - 2
  {
  }

  /** The k-th cell in visiting order. */
  function Cell(center: (int, int), zoom: u8, k: int): Option<Coord> {
    CellCoord(center, zoom, k / LoadTileDimension, k % LoadTileDimension)
  }

  /** What visiting a cell adds to the lookups: its tile, if it has one. */
  function Visit(cell: Option<Coord>): seq<Coord> {
    match cell
    case Some(c) => [c]
    case None => []
  }

  /** The tiles of the first k cells in visiting order, skipped cells left out. */
  function WindowPrefix(center: (int, int), zoom: u8, k: nat): seq<Coord>
    requires k <= LoadTileDimension * LoadTileDimension
  {
    if k == 0 then [] else WindowPrefix(center, zoom, k - 1) + Visit(Cell(center, zoom, k - 1))
  }

  /** Visiting cell (x, y) extends the prefix by that cell's tile, if it has one. */
  lemma WindowPrefixStep(center: (int, int), zoom: u8, x: int, y: int)
    requires 0 <= x < LoadTileDimension && 0 <= y < LoadTileDimension
    ensures WindowPrefix(center, zoom, LoadTileDimension * x + y + 1) ==
            WindowPrefix(center, zoom, LoadTileDimension * x + y) + Visit(CellCoord(center, zoom, x, y))
  {
    var k := LoadTileDimension * x + y;
    assert k / LoadTileDimension == x && k % LoadTileDimension == y;
    assert Cell(center, zoom, k) == CellCoord(center, zoom, x, y);
  }

  /** Every tile `populate_tiles` looks up, in the order it looks them up. */
  function Window(center: (int, int), zoom: u8): seq<Coord> {
    WindowPrefix(center, zoom, LoadTileDimension * LoadTileDimension)
  }

  /** The coordinates of `cs` a lookup in `m` reports `NotLoaded`, in order. */
  function QueuedOf(m: map<Coord, Tile>, cs: seq<Coord>): seq<Coord> {
    if cs == [] then []
    else
      QueuedOf(m, cs[..|cs| - 1]) +
      if Lookup(m, cs[|cs| - 1]).state == NotLoaded then [cs[|cs| - 1]] else []
  }

  /** What cell (x, y) of the viewport holds after `populate_tiles` on a cache `m`. */
  function CellRecord(m: map<Coord, Tile>, center: (int, int), zoom: u8, x: int, y: int, previous: Tile): Tile {
    match CellCoord(center, zoom, x, y)
    case Some(c) => Lookup(m, c)
    case None => previous
  }

  /** `a` comes before `b` x-major, then by y. */
  predicate Before(a: Coord, b: Coord) {
    a.x < b.x || (a.x == b.x && a.y < b.y)
  }

  predicate Pairwise(s: seq<Coord>, R: (Coord, Coord) -> bool) {
    forall i, j | 0 <= i < j < |s| :: R(s[i], s[j])
  }

  /** Different cells never show the same tile, even when `as u32` wraps. */
  lemma CellInjective(center: (int, int), zoom: u8, j1: int, j2: int)
    requires 0 <= j1 < 25 && 0 <= j2 < 25
    requires Cell(center, zoom, j1).Some? && Cell(center, zoom, j1) == Cell(center, zoom, j2)
    ensures j1 == j2
  {
    ToU32Injective(center.0 + (j1 / 5 - 2), center.0 + (j2 / 5 - 2));
    ToU32Injective(center.1 + (j1 % 5 - 2), center.1 + (j2 % 5 - 2));
  }

  /** The first k cells contribute at most k tiles, each one of those cells' tiles. */
  lemma {:induction false} WindowPrefixMembers(center: (int, int), zoom: u8, k: nat)
    requires k <= 25
    ensures |WindowPrefix(center, zoom, k)| <= k
    ensures forall c :: c in WindowPrefix(center, zoom, k) <==>
                          exists j :: 0 <= j < k && Cell(center, zoom, j) == Some(c)
  {
    if k > 0 {
      WindowPrefixMembers(center, zoom, k - 1);
      var p, v := WindowPrefix(center, zoom, k - 1), Visit(Cell(center, zoom, k - 1));
      assert WindowPrefix(center, zoom, k) == p + v;
      assert |v| <= 1 && forall c :: c in v <==> Cell(center, zoom, k - 1) == Some(c);
      forall c
        ensures c in WindowPrefix(center, zoom, k) <==> exists j :: 0 <= j < k && Cell(center, zoom, j) == Some(c)
      {
        if exists j :: 0 <= j < k && Cell(center, zoom, j) == Some(c) {
          var j :| 0 <= j < k && Cell(center, zoom, j) == Some(c);
          if j < k - 1 {
            assert c in p;
          } else {
            assert c in v;
          }
        }
        if c in v {
          assert Cell(center, zoom, k - 1) == Some(c);
        }
      }
    }
  }

  /** The first k cells never contribute the same tile twice. */
  lemma {:induction false} WindowPrefixDistinct(center: (int, int), zoom: u8, k: nat)
    requires k <= 25
    ensures Pairwise(WindowPrefix(center, zoom, k), (a, b) => a != b)
  {
    if k > 0 {
      WindowPrefixDistinct(center, zoom, k - 1);
      WindowPrefixMembers(center, zoom, k - 1);
      var p := WindowPrefix(center, zoom, k - 1);
      match Cell(center, zoom, k - 1)
      case None =>
        assert Visit(Cell(center, zoom, k - 1)) == [];
        assert WindowPrefix(center, zoom, k) == p;
      case Some(c) =>
        var w := p + [c];
        assert Visit(Cell(center, zoom, k - 1)) == [c];
        assert WindowPrefix(center, zoom, k) == w;
        if c in p {
          var j :| 0 <= j < k - 1 && Cell(center, zoom, j) == Some(c);
          CellInjective(center, zoom, j, k - 1);
        }
        forall i, i' | 0 <= i < i' < |w|
          ensures w[i] != w[i']
        {
          if i' < |p| {
            assert w[i] == p[i] && w[i'] == p[i'];
          } else {
            assert w[i] == p[i] && p[i] in p;
          }
        }
    }
  }

  /** The first k cells contribute at most k tiles, each once, each one of those cells' tiles. */
  lemma WindowPrefixFacts(center: (int, int), zoom: u8, k: nat)
    requires k <= 25
    ensures |WindowPrefix(center, zoom, k)| <= k
    ensures Pairwise(WindowPrefix(center, zoom, k), (a, b) => a != b)
    ensures forall c :: c in WindowPrefix(center, zoom, k) <==>
                          exists j :: 0 <= j < k && Cell(center, zoom, j) == Some(c)
  {
    WindowPrefixMembers(center, zoom, k);
    WindowPrefixDistinct(center, zoom, k);
  }

  /** Tile c is (tx, ty, zoom) for some tx, ty >= 1 within 2 of the centre tile, after `as u32`. */
  predicate InWindow(center: (int, int), zoom: u8, c: Coord) {
    exists tx, ty | 1 <= tx && 1 <= ty &&
                    center.0 - 2 <= tx <= center.0 + 2 && center.1 - 2 <= ty <= center.1 + 2 ::
      c == Coord(ToU32(tx), ToU32(ty), zoom)
  }

  lemma CellInWindow(center: (int, int), zoom: u8, j: int)
    requires 0 <= j < 25 && Cell(center, zoom, j).Some?
    ensures InWindow(center, zoom, Cell(center, zoom, j).value)
  {
    var tx, ty := center.0 + (j / 5 - 2), center.1 + (j % 5 - 2);
    assert Cell(center, zoom, j).value == Coord(ToU32(tx), ToU32(ty), zoom);
  }

  lemma InWindowIsCell(center: (int, int), zoom: u8, c: Coord)
    requires InWindow(center, zoom, c)
    ensures exists j :: 0 <= j < 25 && Cell(center, zoom, j) == Some(c)
  {
    var tx, ty :| 1 <= tx && 1 <= ty &&
                  center.0 - 2 <= tx <= center.0 + 2 && center.1 - 2 <= ty <= center.1 + 2 &&
                  c == Coord(ToU32(tx), ToU32(ty), zoom);
    var j := 5 * (tx - center.0 + 2) + (ty - center.1 + 2);
    assert j / 5 == tx - center.0 + 2 && j % 5 == ty - center.1 + 2;
    assert Cell(center, zoom, j) == Some(c);
  }

  /**
    The tiles `populate_tiles` visits are exactly those (tx, ty, zoom) with
    tx, ty >= 1 and within 2 of the centre tile in each direction (after
    `as u32`), each once, at most 25 of them.
   */
  lemma WindowExactly(center: (int, int), zoom: u8)
    ensures |Window(center, zoom)| <= 25
    ensures Pairwise(Window(center, zoom), (a, b) => a != b)
    ensures forall c :: c in Window(center, zoom) <==> InWindow(center, zoom, c)
  {
    WindowPrefixFacts(center, zoom, 25);
    forall c
      ensures c in Window(center, zoom) <==> InWindow(center, zoom, c)
    {
      if c in Window(center, zoom) {
        var j :| 0 <= j < 25 && Cell(center, zoom, j) == Some(c);
        CellInWindow(center, zoom, j);
      }
      if InWindow(center, zoom, c) {
        InWindowIsCell(center, zoom, c);
      }
    }
  }

  /** Without wrap-around, an earlier cell shows an earlier tile. */
  lemma CellBefore(center: (int, int), zoom: u8, j1: int, j2: int)
    requires 0 <= j1 < j2 < 25
    requires center.0 + 2 < U32Modulus && center.1 + 2 < U32Modulus
    requires Cell(center, zoom, j1).Some? && Cell(center, zoom, j2).Some?
    ensures Before(Cell(center, zoom, j1).value, Cell(center, zoom, j2).value)
  {
    assert j1 / 5 < j2 / 5 || (j1 / 5 == j2 / 5 && j1 % 5 < j2 % 5);
  }

  /** When no tile coordinate of the window wraps in `as u32`, the visiting order is x-major, then y. */
  lemma {:induction false} WindowPrefixOrdered(center: (int, int), zoom: u8, k: nat)
    requires k <= 25
    requires center.0 + 2 < U32Modulus && center.1 + 2 < U32Modulus
    ensures Pairwise(WindowPrefix(center, zoom, k), Before)
  {
    if k > 0 {
      WindowPrefixOrdered(center, zoom, k - 1);
      WindowPrefixFacts(center, zoom, k - 1);
      var p := WindowPrefix(center, zoom, k - 1);
      match Cell(center, zoom, k - 1)
      case None =>
        assert Visit(Cell(center, zoom, k - 1)) == [];
        assert WindowPrefix(center, zoom, k) == p;
      case Some(c) =>
        var w := p + [c];
        assert Visit(Cell(center, zoom, k - 1)) == [c];
        assert WindowPrefix(center, zoom, k) == w;
        forall i | 0 <= i < |p|
          ensures Before(p[i], c)
        {
          assert p[i] in p;
          var j :| 0 <= j < k - 1 && Cell(center, zoom, j) == Some(p[i]);
          CellBefore(center, zoom, j, k - 1);
        }
        forall i, i' | 0 <= i < i' < |w|
          ensures Before(w[i], w[i'])
        {
          if i' < |p| {
            assert w[i] == p[i] && w[i'] == p[i'];
          } else {
            assert w[i] == p[i] && w[i'] == c;
          }
        }
    }
  }

  /** Filtering by lookup keeps only what is in `cs` and reported `NotLoaded`, and keeps order. */
  lemma {:induction false} QueuedOfFacts(m: map<Coord, Tile>, cs: seq<Coord>, R: (Coord, Coord) -> bool)
    ensures |QueuedOf(m, cs)| <= |cs|
    ensures forall c :: c in QueuedOf(m, cs) <==> c in cs && Lookup(m, c).state == NotLoaded
    ensures Pairwise(cs, R) ==> Pairwise(QueuedOf(m, cs), R)
  {
    if cs != [] {
      var init, last := cs[..|cs| - 1], cs[|cs| - 1];
      assert cs == init + [last];
      QueuedOfFacts(m, init, R);
      var q := QueuedOf(m, init);
      if Pairwise(cs, R) {
        assert Pairwise(init, R);
        if Lookup(m, last).state == NotLoaded {
          var q' := q + [last];
          forall i, i' | 0 <= i < i' < |q'|
            ensures R(q'[i], q'[i'])
          {
            if i' < |q| {
              assert q'[i] == q[i] && q'[i'] == q[i'];
            } else {
              assert q[i] in init;
              var j :| 0 <= j < |init| && init[j] == q[i];
              assert cs[j] == q'[i] && cs[|cs| - 1] == q'[i'];
            }
          }
        }
      }
    }
  }
}
