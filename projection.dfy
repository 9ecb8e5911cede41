/**
 * From a geographic point to a tile and its quadkey. Longitude maps to a
 * column linearly and is wrapped onto the grid; the Mercator term for the
 * latitude, 0.5 - ln((1 + sin φ) / (1 - sin φ)) / (4π), is computed in the
 * crate with floating-point transcendental functions and is an input here
 * (`mercatorY`: 0 at the grid's north edge, 1 at its south edge).
 */
module Projection {
  import opened Bits
  import opened Qk

  /** Rounding towards zero, `f64::trunc`. */
  function Trunc(t: real): (r: int)
    ensures t >= 0.0 ==> 0 <= r && r as real <= t < r as real + 1.0
    ensures t < 0.0 ==> r <= 0 && r as real - 1.0 < t <= r as real
  {
    if t >= 0.0 then t.Floor else -((-t).Floor)
  }

  /**
   * The `%` of f64: x - trunc(x / m) * m, which keeps the sign of x and is
   * smaller than m in magnitude.
   */
  function FloatRem(x: real, m: real): (r: real)
    requires m > 0.0
    ensures -m < r < m
    ensures x >= 0.0 ==> r >= 0.0
    ensures x < 0.0 ==> r <= 0.0
  {
    FloatRemBounds(x, m);
    x - Trunc(x / m) as real * m
  }

  lemma FloatRemBounds(x: real, m: real)
    requires m > 0.0
    ensures var r := x - Trunc(x / m) as real * m;
            -m < r < m && (x >= 0.0 ==> r >= 0.0) && (x < 0.0 ==> r <= 0.0)
  {
    var t := x / m;
    assert x == t * m;
    var q := Trunc(t) as real;
    if x >= 0.0 {
      RemBelow(x, m, t, q);
    } else {
      RemAbove(x, m, t, q);
    }
  }

  /** x - q * m lies in [0, m) when q <= x / m < q + 1. */
  lemma RemBelow(x: real, m: real, t: real, q: real)
    requires m > 0.0 && x == t * m && q <= t < q + 1.0
    ensures 0.0 <= x - q * m < m
  {
    var d := t - q;
    assert x - q * m == d * m;
    MulMonotone(0.0, d, m);
    MulMonotone(d, 1.0, m);
    assert d < 1.0;
    assert d * m < 1.0 * m;
    assert 1.0 * m == m;
    assert d * m < m;
  }

  /** x - q * m lies in (-m, 0] when q - 1 < x / m <= q. */
  lemma RemAbove(x: real, m: real, t: real, q: real)
    requires m > 0.0 && x == t * m && q - 1.0 < t <= q
    ensures -m < x - q * m <= 0.0
  {
    var d := t - q;
    assert x - q * m == d * m;
    MulMonotone(d, 0.0, m);
    MulMonotone(-1.0, d, m);
    assert -1.0 < d;
    assert -1.0 * m < d * m;
    assert -1.0 * m == -m;
    assert -m < d * m;
  }

  /** Multiplying by a positive m keeps order. */
  lemma MulMonotone(a: real, b: real, m: real)
    requires m > 0.0
    ensures a <= b ==> a * m <= b * m
    ensures a < b ==> a * m < b * m
  {
    assert b * m - a * m == (b - a) * m;
  }

  /** Scaling a fraction in [0, 1) by a positive m. */
  lemma ScaleBounds(d: real, m: real)
    requires m > 0.0
    ensures 0.0 <= d < 1.0 ==> 0.0 <= d * m < m && 0.0 <= m * d < m
  {
    MulMonotone(0.0, d, m);
    MulMonotone(d, 1.0, m);
    assert 0.0 <= d < 1.0 ==> d * m < 1.0 * m;
    assert 1.0 * m == m;
  }

  /** A whole number k of grid widths m, divided by m, gives back k. */
  lemma WholeWidths(x: real, k: int, m: real)
    requires m > 0.0 && x == k as real * m
    ensures (x / m).Floor as real * m == x
  {
    assert x / m == k as real;
  }

  /**
   * The column wrap of `point_to_tile_fraction`: the remainder modulo m,
   * plus m once if negative. It always lands in [0, m) and moves x by a
   * whole number of grid widths.
   */
  function WrapX(x: real, m: real): (r: real)
    requires m > 0.0
    ensures 0.0 <= r < m
    ensures x - r == ((x - r) / m).Floor as real * m
    ensures 0.0 <= x < m ==> r == x
  {
    var f := FloatRem(x, m);
    WrapXFacts(x, m);
    if f < 0.0 then f + m else f
  }

  lemma WrapXFacts(x: real, m: real)
    requires m > 0.0
    ensures var f := FloatRem(x, m);
            x - f == ((x - f) / m).Floor as real * m
            && x - (f + m) == ((x - (f + m)) / m).Floor as real * m
            && (0.0 <= x < m ==> f == x)
  {
    RemWholeWidths(x, m);
    if 0.0 <= x < m {
      RemInRange(x, m);
    }
  }

  /** The remainder, and the remainder plus m, lie whole widths m from x. */
  lemma RemWholeWidths(x: real, m: real)
    requires m > 0.0
    ensures var f := FloatRem(x, m);
            x - f == ((x - f) / m).Floor as real * m
            && x - (f + m) == ((x - (f + m)) / m).Floor as real * m
  {
    var k := Trunc(x / m);
    var f := FloatRem(x, m);
    assert x - f == k as real * m;
    WholeWidths(x - f, k, m);
    assert x - (f + m) == (k - 1) as real * m;
    WholeWidths(x - (f + m), k - 1, m);
  }

  /** An x already in [0, m) is its own remainder. */
  lemma RemInRange(x: real, m: real)
    requires m > 0.0 && 0.0 <= x < m
    ensures FloatRem(x, m) == x
  {
    var t := x / m;
    assert x == t * m;
    FractionOfWidth(x, m, t);
    assert Trunc(t) == 0;
  }

  /** x = t * m with x in [0, m) puts t in [0, 1). */
  lemma FractionOfWidth(x: real, m: real, t: real)
    requires m > 0.0 && x == t * m && 0.0 <= x < m
    ensures 0.0 <= t < 1.0
  {
    MulMonotone(t, 0.0, m);
    MulMonotone(1.0, t, m);
    assert 0.0 * m == 0.0 && 1.0 * m == m;
  }

  /**
   * `point_to_tile_fraction` at an integral zoom z: the unfloored column
   * and row of the point in the 2^z by 2^z grid.
   */
  function PointToTileFraction(lon: real, mercatorY: real, z: nat): (t: Tile)
    ensures t.z == z as real
    ensures 0.0 <= t.x < GridSize(z)
    ensures -180.0 <= lon < 180.0 ==> t.x == GridSize(z) * (lon / 360.0 + 0.5)
    ensures 0.0 <= mercatorY < 1.0 ==> 0.0 <= t.y < GridSize(z)
  {
    var z2 := GridSize(z);
    InGrid(lon, mercatorY, z2);
    Tile(WrapX(z2 * (lon / 360.0 + 0.5), z2), z2 * mercatorY, z as real)
  }

  /** The number of tiles along each axis at zoom z, `BASE.powf(z)`. */
  function GridSize(z: nat): (r: real)
    ensures r >= 1.0
  {
    if z == 0 then 1.0 else 2.0 * GridSize(z - 1)
  }

  lemma {:induction false} GridSizeIsPow2(z: nat)
    ensures GridSize(z) == Pow2(z) as real
  {
    if z > 0 {
      GridSizeIsPow2(z - 1);
    }
  }

  /**
   * Longitudes in [-180, 180) need no wrap, and Mercator rows in [0, 1)
   * land inside the grid.
   */
  lemma InGrid(lon: real, mercatorY: real, z2: real)
    requires z2 > 0.0
    ensures var column := z2 * (lon / 360.0 + 0.5);
            -180.0 <= lon < 180.0 ==> WrapX(column, z2) == column
    ensures 0.0 <= mercatorY < 1.0 ==> 0.0 <= z2 * mercatorY < z2
  {
    var d := lon / 360.0 + 0.5;
    assert -180.0 <= lon < 180.0 ==> 0.0 <= d < 1.0;
    ScaleBounds(d, z2);
    ScaleBounds(mercatorY, z2);
  }

  /**
   * `point_to_tile`: the fractional tile with x and y floored, i.e. the
   * tile whose cell contains the point.
   */
  function PointToTile(lon: real, mercatorY: real, z: nat): (t: Tile)
    ensures var f := PointToTileFraction(lon, mercatorY, z);
            t.z == f.z
            && t.x == t.x.Floor as real && t.x <= f.x < t.x + 1.0
            && t.y == t.y.Floor as real && t.y <= f.y < t.y + 1.0
    ensures 0.0 <= t.x < GridSize(z)
  {
    var f := PointToTileFraction(lon, mercatorY, z);
    Tile(f.x.Floor as real, f.y.Floor as real, f.z)
  }

  /** `point_to_quadkey`: the key of the tile containing the point. */
  method PointToQuadkey(lon: real, mercatorY: real, z: nat) returns (r: Result<string>)
    ensures r == QuadkeyOf(PointToTile(lon, mercatorY, z))
    ensures z <= 64 ==> r.Ok? && |r.value| == z
    ensures z > 64 ==> r == Err(ShiftOverflow)
  {
    var tile := PointToTile(lon, mercatorY, z);
    assert tile.z.Floor == z;
    r := TileToQuadkey(tile);
  }

  /**
   * The key of a point inside the Mercator band names exactly the tile
   * that contains it: decoding it gives back `point_to_tile`.
   */
  lemma PointKeyNamesTile(lon: real, mercatorY: real, z: nat)
    requires z <= 31 && 0.0 <= mercatorY < 1.0
    ensures var t := PointToTile(lon, mercatorY, z);
            QuadkeyOf(t).Ok? && TileOf(QuadkeyOf(t).value) == Ok(t)
  {
    var t := PointToTile(lon, mercatorY, z);
    var x, y := t.x.Floor, t.y.Floor;
    GridSizeIsPow2(z);
    assert 0 <= x < Pow2(z) && 0 <= y < Pow2(z);
    Pow2Monotone(z, 31);
    Pow2Constants();
    assert t == Tile(x as real, y as real, z as real);
    TileRoundTrip(x, y, z);
  }

  /**
   * The crate's point tests: longitude -122.406921 at zoom 7 lies in column
   * 20.4775392, so a point whose Mercator row falls in tile row 49 is in
   * tile (20, 49, 7), whose key is "0230102".
   */
  lemma PointExample(mercatorY: real)
    requires 49.0 / 128.0 <= mercatorY < 50.0 / 128.0
    ensures PointToTileFraction(-122.406921, mercatorY, 7).x == 20.4775392
    ensures PointToTile(-122.406921, mercatorY, 7) == Tile(20.0, 49.0, 7.0)
    ensures QuadkeyOf(PointToTile(-122.406921, mercatorY, 7)) == Ok("0230102")
  {
    GridSizeIsPow2(7);
    assert GridSize(7) == 128.0;
    var f := PointToTileFraction(-122.406921, mercatorY, 7);
    assert f.x == 20.4775392 && f.x.Floor == 20;
    assert f.y == 128.0 * mercatorY && 49.0 <= f.y < 50.0;
    assert f.y.Floor == 49;
    Example();
  }
}
