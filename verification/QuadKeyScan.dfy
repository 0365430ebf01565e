/**
 The scan of `LatLonToQuadKeyRange`: which positions of an area are looked at, and the tile
 each of them falls into. The projection from degrees to pixels is left abstract.
 */
module QuadKeyScan {
  import opened MachineWords
  import opened QuadKeyTiles
  import opened Reals

  datatype Bounds = Bounds(minLat: real, maxLat: real, minLon: real, maxLon: real)

  datatype Pixel = Pixel(x: real, y: real)

  /** Latitude, longitude and level to pixels, before they are clipped to the map. */
  type Projection = (real, real, nat) -> Pixel

  function Clip(n: real, minValue: real, maxValue: real): (r: real)
    requires minValue <= maxValue
    ensures minValue <= r <= maxValue
    ensures minValue <= n <= maxValue ==> r == n
  {
    var raised := if n < minValue then minValue else n;
    if maxValue < raised then maxValue else raised
  }

  /** The tile coordinate of a pixel coordinate: clipped, cut to an integer, divided by 256. */
  function TileCoordinate(pixel: real, level: nat): (c: nat)
    ensures c < Pow2(level)
  {
    var p := Clip(pixel, 0.0, (256 * Pow2(level) - 1) as real).Floor;
    PixelToTile(p, level);
    p / 256
  }

  /** A tile is 256 pixels wide; what is outside the map belongs to the tiles at its edge. */
  lemma TileOfPixel(pixel: real, level: nat, c: nat)
    requires c < Pow2(level)
    ensures TileCoordinate(pixel, level) == c
       <==> && (c == 0 || (256 * c) as real <= pixel)
            && (c == Pow2(level) - 1 || pixel < (256 * (c + 1)) as real)
  {
    var n := Pow2(level);
    var p := Clip(pixel, 0.0, (256 * n - 1) as real);
    assert p.Floor as real <= p < (p.Floor + 1) as real;
    if p.Floor / 256 == c {
      assert 256 * c <= p.Floor < 256 * (c + 1);
    }
    if 256 * c <= p.Floor < 256 * (c + 1) {
      assert p.Floor / 256 == c;
    }
  }

  function TileAt(project: Projection, lat: real, lon: real, level: nat): (t: Tile)
    ensures ValidTile(t, level)
  {
    var p := project(lat, lon, level);
    Tile(TileCoordinate(p.x, level), TileCoordinate(p.y, level))
  }

  /** The area rounded outwards to hundredths of a degree. */
  function Rounded(b: Bounds): Bounds {
    Bounds(FloorHundredth(b.minLat), CeilHundredth(b.maxLat), FloorHundredth(b.minLon), CeilHundredth(b.maxLon))
  }

  function FloorHundredth(r: real): real {
    (r * 100.0).Floor as real / 100.0
  }

  function CeilHundredth(r: real): real {
    Ceil(r * 100.0) as real / 100.0
  }

  predicate Inside(b: Bounds, lat: real, lon: real) {
    b.minLat <= lat <= b.maxLat && b.minLon <= lon <= b.maxLon
  }

  predicate WholeHundredths(r: real) {
    (r * 100.0).Floor as real == r * 100.0
  }

  /** Rounding loses nothing of the area, and adds less than a hundredth of a degree on each side. */
  lemma RoundedContains(b: Bounds, lat: real, lon: real)
    ensures Inside(b, lat, lon) ==> Inside(Rounded(b), lat, lon)
    ensures var r := Rounded(b);
      && r.minLat <= b.minLat < r.minLat + 0.01 && r.maxLat - 0.01 < b.maxLat <= r.maxLat
      && r.minLon <= b.minLon < r.minLon + 0.01 && r.maxLon - 0.01 < b.maxLon <= r.maxLon
      && WholeHundredths(r.minLat) && WholeHundredths(r.maxLat)
      && WholeHundredths(r.minLon) && WholeHundredths(r.maxLon)
  {
    WholeNumber((b.minLat * 100.0).Floor);
    WholeNumber(Ceil(b.maxLat * 100.0));
    WholeNumber((b.minLon * 100.0).Floor);
    WholeNumber(Ceil(b.maxLon * 100.0));
  }

  lemma WholeNumber(n: int)
    ensures WholeHundredths(n as real / 100.0)
  {
    assert n as real / 100.0 * 100.0 == n as real;
  }

  /** How many steps fit between two values. */
  function Room(from: real, to: real, step: real): nat
    requires step > 0.0
  {
    if from > to then 0 else ((to - from) / step).Floor + 1
  }

  lemma NoFactor(x: real, step: real)
    requires step > 0.0 && x * step == 0.0
    ensures x == 0.0
  {
  }

  lemma RoomShrinks(from: real, to: real, step: real)
    requires step > 0.0 && from <= to
    ensures Room(from + step, to, step) < Room(from, to, step)
  {
    var r, r' := (to - from) / step, (to - (from + step)) / step;
    assert r' * step == to - from - step && r * step == to - from;
    NoFactor(r - r' - 1.0, step);
    assert (r - 1.0).Floor == r.Floor - 1;
  }

  /** The tiles of one line of the scan, from longitude `lon` on. */
  function ScanLine(project: Projection, lat: real, lon: real, maxLon: real, step: real, level: nat): (ts: seq<Tile>)
    requires step > 0.0
    ensures forall i :: 0 <= i < |ts| ==> ValidTile(ts[i], level)
    decreases Room(lon, maxLon, step)
  {
    if lon > maxLon then []
    else
      RoomShrinks(lon, maxLon, step);
      [TileAt(project, lat, lon, level)] + ScanLine(project, lat, lon + step, maxLon, step, level)
  }

  /** The tiles of all lines, from latitude `lat` on. */
  function Scan(project: Projection, lat: real, b: Bounds, step: real, level: nat): (ts: seq<Tile>)
    requires step > 0.0
    ensures forall i :: 0 <= i < |ts| ==> ValidTile(ts[i], level)
    decreases Room(lat, b.maxLat, step)
  {
    if lat > b.maxLat then []
    else
      RoomShrinks(lat, b.maxLat, step);
      ScanLine(project, lat, b.minLon, b.maxLon, step, level) + Scan(project, lat + step, b, step, level)
  }

  /** The tiles the scan of an area looks at. */
  function Scanned(project: Projection, b: Bounds, step: real, level: nat): (ts: seq<Tile>)
    requires step > 0.0
    ensures forall i :: 0 <= i < |ts| ==> ValidTile(ts[i], level)
  {
    Scan(project, Rounded(b).minLat, Rounded(b), step, level)
  }

  // ---- The scanned positions are a grid ----

  /** The `i`-th value of a loop with a step. */
  function Grid(from: real, step: real, i: nat): real {
    from + i as real * step
  }

  lemma GridNext(from: real, step: real, i: nat)
    ensures Grid(from, step, i + 1) == Grid(from, step, i) + step == Grid(from + step, step, i)
  {
  }

  lemma GridAscends(from: real, step: real, i: nat, j: nat)
    requires step > 0.0 && i <= j
    ensures Grid(from, step, i) <= Grid(from, step, j)
  {
  }

  /** A line has the tiles of its grid positions, and no others. */
  lemma {:induction false} LineIsGrid(project: Projection, lat: real, from: real, maxLon: real, step: real, level: nat,
                                      i: nat)
    requires step > 0.0
    ensures var line := ScanLine(project, lat, from, maxLon, step, level);
            && (i < |line| <==> Grid(from, step, i) <= maxLon)
            && (i < |line| ==> line[i] == TileAt(project, lat, Grid(from, step, i), level))
    decreases i
  {
    GridAscends(from, step, 0, i);
    if from <= maxLon {
      RoomShrinks(from, maxLon, step);
      if i > 0 {
        GridNext(from, step, i - 1);
        LineIsGrid(project, lat, from + step, maxLon, step, level, i - 1);
      }
    }
  }

  /** The tile of the position in the `i`-th line and the `j`-th place. */
  function GridTile(project: Projection, from: real, b: Bounds, step: real, level: nat, i: nat, j: nat): Tile {
    TileAt(project, Grid(from, step, i), Grid(b.minLon, step, j), level)
  }

  predicate OnGrid(from: real, b: Bounds, step: real, i: nat, j: nat) {
    Grid(from, step, i) <= b.maxLat && Grid(b.minLon, step, j) <= b.maxLon
  }

  lemma LineHas(project: Projection, lat: real, b: Bounds, step: real, level: nat, t: Tile)
    requires step > 0.0
    ensures t in ScanLine(project, lat, b.minLon, b.maxLon, step, level)
       <==> exists j: nat ::
              Grid(b.minLon, step, j) <= b.maxLon && t == TileAt(project, lat, Grid(b.minLon, step, j), level)
  {
    hide TileAt, Grid;
    var line := ScanLine(project, lat, b.minLon, b.maxLon, step, level);
    forall j: nat
      ensures j < |line| <==> Grid(b.minLon, step, j) <= b.maxLon
      ensures j < |line| ==> line[j] == TileAt(project, lat, Grid(b.minLon, step, j), level)
    {
      LineIsGrid(project, lat, b.minLon, b.maxLon, step, level, j);
    }
    if t in line {
      var j :| 0 <= j < |line| && line[j] == t;
    }
  }

  /** Every scanned tile is that of a grid position. */
  lemma {:induction false} ScanOnGrid(project: Projection, from: real, b: Bounds, step: real, level: nat, t: Tile)
    returns (i: nat, j: nat)
    requires step > 0.0 && t in Scan(project, from, b, step, level)
    ensures OnGrid(from, b, step, i, j) && t == GridTile(project, from, b, step, level, i, j)
    decreases Room(from, b.maxLat, step)
  {
    hide TileAt, ScanLine;
    if t in ScanLine(project, from, b.minLon, b.maxLon, step, level) {
      LineHas(project, from, b, step, level, t);
      i := 0;
      j :| Grid(b.minLon, step, j) <= b.maxLon && t == TileAt(project, from, Grid(b.minLon, step, j), level);
    } else {
      RoomShrinks(from, b.maxLat, step);
      i, j := ScanOnGrid(project, from + step, b, step, level, t);
      GridNext(from, step, i);
      i := i + 1;
    }
  }

  /** The tile of every grid position is scanned. */
  lemma {:induction false} GridScanned(project: Projection, from: real, b: Bounds, step: real, level: nat, i: nat,
                                       j: nat)
    requires step > 0.0 && OnGrid(from, b, step, i, j)
    ensures GridTile(project, from, b, step, level, i, j) in Scan(project, from, b, step, level)
    decreases i
  {
    hide TileAt, ScanLine;
    GridAscends(from, step, 0, i);
    RoomShrinks(from, b.maxLat, step);
    if i == 0 {
      LineHas(project, from, b, step, level, GridTile(project, from, b, step, level, i, j));
    } else {
      GridNext(from, step, i - 1);
      GridScanned(project, from + step, b, step, level, i - 1, j);
    }
  }

  ghost predicate HasGridTile(project: Projection, r: Bounds, step: real, level: nat, t: Tile) {
    exists i: nat, j: nat ::
      OnGrid(r.minLat, r, step, i, j) && t == GridTile(project, r.minLat, r, step, level, i, j)
  }

  /** The scan of an area looks at the tiles of its grid positions, and at no others. */
  lemma ScannedIsGrid(project: Projection, b: Bounds, step: real, level: nat, t: Tile)
    requires step > 0.0
    ensures t in Scanned(project, b, step, level) <==> HasGridTile(project, Rounded(b), step, level, t)
  {
    hide GridTile, OnGrid, Scan, Rounded;
    var r := Rounded(b);
    if t in Scanned(project, b, step, level) {
      var i, j := ScanOnGrid(project, r.minLat, r, step, level, t);
    }
    if i: nat, j: nat :| OnGrid(r.minLat, r, step, i, j) && t == GridTile(project, r.minLat, r, step, level, i, j) {
      GridScanned(project, r.minLat, r, step, level, i, j);
    }
  }

  // ---- Which tiles the grid leaves out, along one axis ----

  /** The pixel coordinate `f` of the values from `from` to `to`, of which every `step`-th one is scanned. */
  datatype Axis = Axis(f: real -> real, from: real, to: real, step: real, level: nat)

  ghost predicate Ascending(a: Axis) {
    forall x, y :: a.from <= x <= y <= a.to ==> a.f(x) <= a.f(y)
  }

  ghost predicate Descending(a: Axis) {
    forall x, y :: a.from <= x <= y <= a.to ==> a.f(x) >= a.f(y)
  }

  predicate Between(v: real, x: real, y: real) {
    x <= v <= y || y <= v <= x
  }

  /** Every value between two values is taken between their places. */
  ghost predicate Continuous(a: Axis) {
    forall x, y, v :: a.from <= x <= y <= a.to && Between(v, a.f(x), a.f(y)) ==> exists z :: x <= z <= y && a.f(z) == v
  }

  /** The axis is not empty, and runs in one direction. */
  ghost predicate Runs(a: Axis) {
    a.step > 0.0 && a.from <= a.to && (Ascending(a) || Descending(a))
  }

  /** How many steps the loop makes before it goes beyond the end. */
  function LastStep(from: real, to: real, step: real): (n: nat)
    requires step > 0.0 && from <= to
    ensures Grid(from, step, n) <= to < Grid(from, step, n + 1)
    decreases Room(from, to, step)
  {
    if to < from + step then 0
    else
      RoomShrinks(from, to, step);
      var n := LastStep(from + step, to, step);
      GridNext(from, step, n);
      GridNext(from, step, n + 1);
      n + 1
  }

  lemma NotBeyond(from: real, step: real, to: real, n: nat, i: nat)
    requires step > 0.0 && Grid(from, step, i) <= to < Grid(from, step, n + 1)
    ensures i <= n
  {
    if n + 1 <= i {
      GridAscends(from, step, n + 1, i);
    }
  }

  function LastIndex(a: Axis): nat
    requires a.step > 0.0 && a.from <= a.to
  {
    LastStep(a.from, a.to, a.step)
  }

  function ScanAt(a: Axis, i: nat): real {
    Grid(a.from, a.step, i)
  }

  /** The tile coordinate of a value. */
  function TileOn(a: Axis, x: real): nat {
    TileCoordinate(a.f(x), a.level)
  }

  /** The tile of a value is that of a scanned one. */
  ghost predicate Hit(a: Axis, x: real)
    requires a.step > 0.0 && a.from <= a.to
  {
    exists i: nat :: i <= LastIndex(a) && TileOn(a, ScanAt(a, i)) == TileOn(a, x)
  }

  /** Two values fall into the same tile or into neighbouring ones. */
  predicate Near(a: Axis, x: real, y: real) {
    -1 <= TileOn(a, x) - TileOn(a, y) <= 1
  }

  lemma TileCoordinateAtLeast(p: real, level: nat, m: nat)
    requires 0 < m < Pow2(level)
    ensures TileCoordinate(p, level) >= m <==> p >= (256 * m) as real
  {
    var c := Clip(p, 0.0, (256 * Pow2(level) - 1) as real);
    assert c.Floor / 256 >= m <==> c.Floor >= 256 * m;
    assert c.Floor >= 256 * m <==> c >= (256 * m) as real;
  }

  lemma TileCoordinateAscends(p: real, q: real, level: nat)
    requires p <= q
    ensures TileCoordinate(p, level) <= TileCoordinate(q, level)
  {
    var top := (256 * Pow2(level) - 1) as real;
    assert Clip(p, 0.0, top).Floor <= Clip(q, 0.0, top).Floor;
  }

  lemma AxisOrder(a: Axis, x: real, y: real)
    requires a.from <= x <= y <= a.to
    ensures Ascending(a) ==> TileOn(a, x) <= TileOn(a, y)
    ensures Descending(a) ==> TileOn(a, x) >= TileOn(a, y)
  {
    hide TileCoordinate;
    if Ascending(a) {
      TileCoordinateAscends(a.f(x), a.f(y), a.level);
    }
    if Descending(a) {
      TileCoordinateAscends(a.f(y), a.f(x), a.level);
    }
  }

  /** The scanned values are on the axis. */
  lemma ScanOnAxis(a: Axis, i: nat)
    requires a.step > 0.0 && a.from <= a.to && i <= LastIndex(a)
    ensures a.from <= ScanAt(a, i) <= a.to
  {
    hide Grid;
    GridZero(a.from, a.step);
    GridAscends(a.from, a.step, 0, i);
    GridAscends(a.from, a.step, i, LastIndex(a));
  }

  lemma GridZero(from: real, step: real)
    ensures Grid(from, step, 0) == from
  {
  }

  /** The scanned value below a value. */
  lemma ScanBelow(a: Axis, x: real) returns (i: nat)
    requires a.step > 0.0 && a.from <= x <= a.to
    ensures i <= LastIndex(a) && ScanAt(a, i) <= x < ScanAt(a, i + 1)
  {
    hide Grid;
    i := LastStep(a.from, x, a.step);
    NotBeyond(a.from, a.step, a.to, LastIndex(a), i);
  }

  /** A value between two others that are near falls into the tile of one of them. */
  lemma NearSqueezes(a: Axis, x: real, y: real, z: real)
    requires Ascending(a) || Descending(a)
    requires a.from <= x <= y <= z <= a.to && Near(a, x, z)
    ensures TileOn(a, y) == TileOn(a, x) || TileOn(a, y) == TileOn(a, z)
  {
    hide TileOn, Ascending, Descending;
    AxisOrder(a, x, y);
    AxisOrder(a, y, z);
  }

  /** A scanned value, kept between two bounds. */
  function Kept(a: Axis, i: nat, lo: real, hi: real): real
    requires lo <= hi
  {
    Clip(ScanAt(a, i), lo, hi)
  }

  /** Both ends are hit, and no step in between leaves out a tile. */
  ghost predicate Covered(a: Axis, lo: real, hi: real)
    requires a.step > 0.0 && a.from <= lo <= hi <= a.to
  {
    && Hit(a, lo) && Hit(a, hi)
    && forall i: nat :: i <= LastIndex(a) ==> Near(a, Kept(a, i, lo, hi), Kept(a, i + 1, lo, hi))
  }

  lemma KeptHit(a: Axis, i: nat, lo: real, hi: real)
    requires a.step > 0.0 && a.from <= lo <= hi <= a.to && i <= LastIndex(a) + 1 && Hit(a, lo) && Hit(a, hi)
    ensures Hit(a, Kept(a, i, lo, hi))
  {
    hide TileOn, Grid;
    var c := Kept(a, i, lo, hi);
    if c != lo && c != hi {
      NotBeyond(a.from, a.step, a.to, LastIndex(a), i);
    }
  }

  lemma CoveredHits(a: Axis, lo: real, hi: real, x: real)
    requires Runs(a) && a.from <= lo <= x <= hi <= a.to && Covered(a, lo, hi)
    ensures Hit(a, x)
  {
    hide TileOn, Grid, Ascending, Descending, Hit;
    var i := ScanBelow(a, x);
    var c, d := Kept(a, i, lo, hi), Kept(a, i + 1, lo, hi);
    assert Near(a, c, d);
    KeptHit(a, i, lo, hi);
    KeptHit(a, i + 1, lo, hi);
    NearSqueezes(a, c, x, d);
    SameTileHit(a, if TileOn(a, x) == TileOn(a, c) then c else d, x);
  }

  lemma SameTileHit(a: Axis, x: real, y: real)
    requires a.step > 0.0 && a.from <= a.to && TileOn(a, x) == TileOn(a, y)
    ensures Hit(a, x) <==> Hit(a, y)
  {
  }

  /** A value between two others that falls into a tile between theirs. */
  lemma TileBetween(a: Axis, c: real, d: real) returns (x: real)
    requires Runs(a) && Continuous(a) && a.from <= c <= d <= a.to && !Near(a, c, d)
    ensures c <= x <= d
    ensures Ascending(a) ==> TileOn(a, c) < TileOn(a, x) < TileOn(a, d)
    ensures Descending(a) ==> TileOn(a, d) < TileOn(a, x) < TileOn(a, c)
  {
    hide TileCoordinate, Continuous, Ascending, Descending;
    AxisOrder(a, c, d);
    var m := if TileOn(a, c) < TileOn(a, d) then TileOn(a, c) + 1 else TileOn(a, d) + 1;
    var v := (256 * m) as real;
    TileCoordinateAtLeast(a.f(c), a.level, m);
    TileCoordinateAtLeast(a.f(d), a.level, m);
    TileCoordinateAtLeast(v, a.level, m);
    TileCoordinateAtLeast(v, a.level, m + 1);
    x := Reached(a, c, d, v);
  }

  lemma Reached(a: Axis, x: real, y: real, v: real) returns (z: real)
    requires Continuous(a) && a.from <= x <= y <= a.to && Between(v, a.f(x), a.f(y))
    ensures x <= z <= y && a.f(z) == v
  {
    z :| x <= z <= y && a.f(z) == v;
  }

  /** A step that leaves out a tile misses a value. */
  lemma SparseMisses(a: Axis, lo: real, hi: real, i: nat) returns (x: real)
    requires Runs(a) && Continuous(a) && a.from <= lo <= hi <= a.to
    requires i <= LastIndex(a) && !Near(a, Kept(a, i, lo, hi), Kept(a, i + 1, lo, hi))
    ensures lo <= x <= hi && !Hit(a, x)
  {
    hide TileOn, Grid, Continuous, Ascending, Descending;
    GridAscends(a.from, a.step, i, i + 1);
    var c, d := Kept(a, i, lo, hi), Kept(a, i + 1, lo, hi);
    x := TileBetween(a, c, d);
    forall k: nat | k <= LastIndex(a)
      ensures TileOn(a, ScanAt(a, k)) != TileOn(a, x)
    {
      ScanOnAxis(a, k);
      if k <= i {
        GridAscends(a.from, a.step, k, i);
        AxisOrder(a, ScanAt(a, k), c);
      } else {
        GridAscends(a.from, a.step, i + 1, k);
        AxisOrder(a, d, ScanAt(a, k));
      }
    }
  }

  /** The tiles of all values between two are hit exactly when both ends are and no step leaves out a tile. */
  lemma AxisCovered(a: Axis, lo: real, hi: real)
    requires Runs(a) && Continuous(a) && a.from <= lo <= hi <= a.to
    ensures Covered(a, lo, hi) <==> forall x :: lo <= x <= hi ==> Hit(a, x)
  {
    hide Near, Hit, Ascending, Descending, Continuous, Kept;
    if Covered(a, lo, hi) {
      forall x | lo <= x <= hi
        ensures Hit(a, x)
      {
        CoveredHits(a, lo, hi, x);
      }
    } else if Hit(a, lo) && Hit(a, hi) {
      var i: nat :| i <= LastIndex(a) && !Near(a, Kept(a, i, lo, hi), Kept(a, i + 1, lo, hi));
      var x := SparseMisses(a, lo, hi, i);
    }
  }

  /** If the upper end is hit, it is in the tile of the last scanned value. */
  lemma EdgeSame(a: Axis)
    requires Runs(a) && Hit(a, a.to)
    ensures TileOn(a, ScanAt(a, LastIndex(a))) == TileOn(a, a.to)
  {
    hide TileOn, Grid, Ascending, Descending;
    var n := LastIndex(a);
    var i: nat :| i <= n && TileOn(a, ScanAt(a, i)) == TileOn(a, a.to);
    ScanOnAxis(a, i);
    ScanOnAxis(a, n);
    GridAscends(a.from, a.step, i, n);
    AxisOrder(a, ScanAt(a, i), ScanAt(a, n));
    AxisOrder(a, ScanAt(a, n), a.to);
  }

  /** No step between scanned values leaves out a tile. */
  ghost predicate Dense(a: Axis)
    requires a.step > 0.0 && a.from <= a.to
  {
    forall i: nat :: i < LastIndex(a) ==> Near(a, ScanAt(a, i), ScanAt(a, i + 1))
  }

  /** The whole axis is covered exactly when it is dense and the upper end is hit. */
  lemma WholeCovered(a: Axis)
    requires Runs(a)
    ensures Covered(a, a.from, a.to) <==> Dense(a) && Hit(a, a.to)
  {
    hide TileOn, Near, Ascending, Descending;
    var n := LastIndex(a);
    GridZero(a.from, a.step);
    OwnHit(a, 0);
    forall i: nat | i <= n
      ensures Near(a, Kept(a, i, a.from, a.to), Kept(a, i + 1, a.from, a.to))
         <==> Near(a, ScanAt(a, i), if i < n then ScanAt(a, i + 1) else a.to)
    {
      ScanOnAxis(a, i);
      if i < n {
        ScanOnAxis(a, i + 1);
      }
    }
    if Hit(a, a.to) {
      EdgeSame(a);
      SameNear(a, ScanAt(a, n), a.to);
    }
  }

  lemma SameNear(a: Axis, x: real, y: real)
    requires TileOn(a, x) == TileOn(a, y)
    ensures Near(a, x, y)
  {
  }

  lemma OwnHit(a: Axis, n: nat)
    requires a.step > 0.0 && a.from <= a.to && n <= LastIndex(a)
    ensures Hit(a, ScanAt(a, n))
  {
  }

  /** A step that moves by no more than the side of a tile is dense. */
  lemma SmallStepsDense(a: Axis)
    requires a.step > 0.0 && a.from <= a.to
    requires forall i: nat :: i < LastIndex(a) ==> -256.0 <= a.f(ScanAt(a, i + 1)) - a.f(ScanAt(a, i)) <= 256.0
    ensures Dense(a)
  {
    forall i: nat | i < LastIndex(a)
      ensures Near(a, ScanAt(a, i), ScanAt(a, i + 1))
    {
      SmallMove(a.f(ScanAt(a, i)), a.f(ScanAt(a, i + 1)), a.level);
    }
  }

  lemma SmallMove(p: real, q: real, level: nat)
    requires -256.0 <= q - p <= 256.0
    ensures -1 <= TileCoordinate(q, level) - TileCoordinate(p, level) <= 1
  {
    var top := (256 * Pow2(level) - 1) as real;
    var c, d := Clip(p, 0.0, top), Clip(q, 0.0, top);
    assert -256 <= d.Floor - c.Floor <= 256;
  }

  // ---- Which tiles the scan leaves out ----

  predicate NonEmpty(r: Bounds) {
    r.minLat <= r.maxLat && r.minLon <= r.maxLon
  }

  function Rows(py: real -> real, r: Bounds, step: real, level: nat): Axis {
    Axis(py, r.minLat, r.maxLat, step, level)
  }

  function Columns(px: real -> real, r: Bounds, step: real, level: nat): Axis {
    Axis(px, r.minLon, r.maxLon, step, level)
  }

  /** In the area longitude decides the column and latitude the row, in one direction each. */
  ghost predicate Separable(project: Projection, px: real -> real, py: real -> real, r: Bounds, step: real,
                            level: nat) {
    && NonEmpty(r) && Runs(Rows(py, r, step, level)) && Runs(Columns(px, r, step, level))
    && forall lat, lon :: Inside(r, lat, lon) ==> project(lat, lon, level) == Pixel(px(lon), py(lat))
  }

  /** The tile of a position of the area is scanned exactly when both axes hit it. */
  lemma ScannedIfHit(project: Projection, px: real -> real, py: real -> real, b: Bounds, step: real, level: nat,
                     lat: real, lon: real)
    requires Separable(project, px, py, Rounded(b), step, level) && Inside(Rounded(b), lat, lon)
    ensures TileAt(project, lat, lon, level) in Scanned(project, b, step, level)
       <==> Hit(Rows(py, Rounded(b), step, level), lat) && Hit(Columns(px, Rounded(b), step, level), lon)
  {
    hide TileCoordinate, Grid, Rounded, Scanned, Ascending, Descending, OnGrid;
    var r, t := Rounded(b), TileAt(project, lat, lon, level);
    var rows, columns := Rows(py, r, step, level), Columns(px, r, step, level);
    ScannedIsGrid(project, b, step, level, t);
    if i: nat, j: nat :| OnGrid(r.minLat, r, step, i, j) && t == GridTile(project, r.minLat, r, step, level, i, j) {
      GridOnAxes(px, py, r, step, level, i, j);
      ScanOnAxis(rows, i);
      ScanOnAxis(columns, j);
      assert TileOn(rows, ScanAt(rows, i)) == t.y && TileOn(columns, ScanAt(columns, j)) == t.x;
    }
    if Hit(rows, lat) && Hit(columns, lon) {
      var i: nat :| i <= LastIndex(rows) && TileOn(rows, ScanAt(rows, i)) == TileOn(rows, lat);
      var j: nat :| j <= LastIndex(columns) && TileOn(columns, ScanAt(columns, j)) == TileOn(columns, lon);
      ScanOnAxis(rows, i);
      ScanOnAxis(columns, j);
      GridOnAxes(px, py, r, step, level, i, j);
      assert t == GridTile(project, r.minLat, r, step, level, i, j);
    }
  }

  /** The grid positions of the area are those up to the last ones of both axes. */
  lemma GridOnAxes(px: real -> real, py: real -> real, r: Bounds, step: real, level: nat, i: nat, j: nat)
    requires step > 0.0 && NonEmpty(r)
    ensures OnGrid(r.minLat, r, step, i, j)
       <==> i <= LastIndex(Rows(py, r, step, level)) && j <= LastIndex(Columns(px, r, step, level))
  {
    hide Grid;
    var rows, columns := Rows(py, r, step, level), Columns(px, r, step, level);
    if OnGrid(r.minLat, r, step, i, j) {
      NotBeyond(r.minLat, step, r.maxLat, LastIndex(rows), i);
      NotBeyond(r.minLon, step, r.maxLon, LastIndex(columns), j);
    }
    if i <= LastIndex(rows) && j <= LastIndex(columns) {
      ScanOnAxis(rows, i);
      ScanOnAxis(columns, j);
    }
  }

  /** An area that lies in another one. */
  predicate Part(area: Bounds, r: Bounds) {
    NonEmpty(area) && Inside(r, area.minLat, area.minLon) && Inside(r, area.maxLat, area.maxLon)
  }

  /** Both axes are covered between the bounds of an area. */
  ghost predicate AxesCovered(px: real -> real, py: real -> real, r: Bounds, step: real, level: nat, area: Bounds)
    requires step > 0.0 && Part(area, r)
  {
    && Covered(Rows(py, r, step, level), area.minLat, area.maxLat)
    && Covered(Columns(px, r, step, level), area.minLon, area.maxLon)
  }

  /** With both axes covered, the tile of every position of the area is scanned. */
  lemma CoveredScanned(project: Projection, px: real -> real, py: real -> real, b: Bounds, step: real, level: nat,
                       area: Bounds, lat: real, lon: real)
    requires Separable(project, px, py, Rounded(b), step, level) && Part(area, Rounded(b)) && Inside(area, lat, lon)
    requires AxesCovered(px, py, Rounded(b), step, level, area)
    ensures TileAt(project, lat, lon, level) in Scanned(project, b, step, level)
  {
    hide TileAt, Rounded, Scanned, Ascending, Descending, Hit, Covered;
    CoveredHits(Rows(py, Rounded(b), step, level), area.minLat, area.maxLat, lat);
    CoveredHits(Columns(px, Rounded(b), step, level), area.minLon, area.maxLon, lon);
    ScannedIfHit(project, px, py, b, step, level, lat, lon);
  }

  /**
   The tiles of all positions of an area inside the rounded one are scanned, exactly when both
   axes are covered between its bounds. The area may be the one that was asked for.
   */
  lemma AreaScanned(project: Projection, px: real -> real, py: real -> real, b: Bounds, step: real, level: nat,
                    area: Bounds)
    requires Separable(project, px, py, Rounded(b), step, level) && Part(area, Rounded(b))
    requires Continuous(Rows(py, Rounded(b), step, level)) && Continuous(Columns(px, Rounded(b), step, level))
    ensures AxesCovered(px, py, Rounded(b), step, level, area)
       <==> forall lat, lon :: Inside(area, lat, lon) ==>
              TileAt(project, lat, lon, level) in Scanned(project, b, step, level)
  {
    hide TileAt, Rounded, Scanned, Ascending, Descending, Hit, Covered, Continuous;
    var r := Rounded(b);
    var rows, columns := Rows(py, r, step, level), Columns(px, r, step, level);
    AxisCovered(rows, area.minLat, area.maxLat);
    AxisCovered(columns, area.minLon, area.maxLon);
    forall lat, lon | Inside(area, lat, lon)
      ensures TileAt(project, lat, lon, level) in Scanned(project, b, step, level)
         <==> Hit(rows, lat) && Hit(columns, lon)
    {
      ScannedIfHit(project, px, py, b, step, level, lat, lon);
    }
    if !Covered(rows, area.minLat, area.maxLat) {
      var lat :| area.minLat <= lat <= area.maxLat && !Hit(rows, lat);
      assert Inside(area, lat, area.minLon);
    } else if !Covered(columns, area.minLon, area.maxLon) {
      var lon :| area.minLon <= lon <= area.maxLon && !Hit(columns, lon);
      assert Inside(area, area.minLat, lon);
    }
  }

  /**
   The tiles of all positions of the rounded area are scanned, exactly when on both axes
   neighbouring scanned positions are at most one tile apart and the upper end is in a scanned tile.
   */
  lemma ScanComplete(project: Projection, px: real -> real, py: real -> real, b: Bounds, step: real, level: nat)
    requires Separable(project, px, py, Rounded(b), step, level)
    requires Continuous(Rows(py, Rounded(b), step, level)) && Continuous(Columns(px, Rounded(b), step, level))
    ensures var rows, columns := Rows(py, Rounded(b), step, level), Columns(px, Rounded(b), step, level);
            (Dense(rows) && Hit(rows, rows.to) && Dense(columns) && Hit(columns, columns.to))
            == forall lat, lon :: Inside(Rounded(b), lat, lon) ==>
                 TileAt(project, lat, lon, level) in Scanned(project, b, step, level)
  {
    hide TileAt, Rounded, Scanned, Ascending, Descending, Hit, Covered, Continuous, Dense;
    AreaScanned(project, px, py, b, step, level, Rounded(b));
    WholeCovered(Rows(py, Rounded(b), step, level));
    WholeCovered(Columns(px, Rounded(b), step, level));
  }

  // ---- The columns ----

  /** The horizontal pixel coordinate of a longitude. */
  function PixelX(level: nat): real -> real {
    (lon: real) => (lon + 180.0) / 360.0 * (256 * Pow2(level)) as real + 0.5
  }

  /** The step of the scan that goes with a level. */
  function StepOf(level: int): real {
    if level == 18 then 0.001 else if level == 17 then 0.002 else if level == 16 then 0.003
    else if level == 15 then 0.007 else 0.015
  }

  /**
   At every level the step that goes with it, or a smaller one, leaves out no column of tiles
   between the first and the last longitude it comes to.
   */
  lemma ColumnsDense(level: nat, r: Bounds, step: real)
    requires 14 <= level <= 18 && 0.0 < step <= StepOf(level) && NonEmpty(r)
    ensures Dense(Columns(PixelX(level), r, step, level)) && Runs(Columns(PixelX(level), r, step, level))
  {
    var a := Columns(PixelX(level), r, step, level);
    MapSizes();
    forall i: nat | i < LastIndex(a)
      ensures -256.0 <= a.f(ScanAt(a, i + 1)) - a.f(ScanAt(a, i)) <= 256.0
    {
      GridNext(a.from, a.step, i);
      PixelStep(ScanAt(a, i), step, level);
    }
    SmallStepsDense(a);
    forall x, y | x <= y
      ensures a.f(x) <= a.f(y)
    {
      PixelStep(x, y - x, level);
    }
  }

  lemma PixelStep(lon: real, step: real, level: nat)
    ensures PixelX(level)(lon + step) - PixelX(level)(lon) == step / 360.0 * (256 * Pow2(level)) as real
    ensures step >= 0.0 ==> PixelX(level)(lon + step) >= PixelX(level)(lon)
  {
    var size := (256 * Pow2(level)) as real;
    assert (lon + step + 180.0) / 360.0 == (lon + 180.0) / 360.0 + step / 360.0;
    assert ((lon + 180.0) / 360.0 + step / 360.0) * size == (lon + 180.0) / 360.0 * size + step / 360.0 * size;
    ProductAscends(step / 360.0, size);
  }

  lemma ProductAscends(x: real, y: real)
    requires y >= 0.0
    ensures x >= 0.0 ==> x * y >= 0.0
  {
  }

  /**
   All columns of the rounded area are scanned exactly when the last one is; and so they are if
   the step divides a hundredth of a degree, as those of levels 17 and 18 do.
   */
  lemma ColumnsComplete(level: nat, b: Bounds, step: real)
    requires 14 <= level <= 18 && 0.0 < step <= StepOf(level) && NonEmpty(Rounded(b))
    ensures var a := Columns(PixelX(level), Rounded(b), step, level);
            && (Covered(a, a.from, a.to) <==> Hit(a, a.to))
            && (step == 0.001 || step == 0.002 ==> Hit(a, a.to))
  {
    hide TileOn, Rounded, Near, Dense, Hit, Covered;
    var r := Rounded(b);
    var a := Columns(PixelX(level), r, step, level);
    ColumnsDense(level, r, step);
    WholeCovered(a);
    if step == 0.001 || step == 0.002 {
      var n := EndOnGrid(b, if step == 0.001 then 10 else 5, step);
      assert ScanAt(a, n) == a.to;
      NotBeyond(a.from, a.step, a.to, LastIndex(a), n);
      OwnHit(a, n);
    }
  }

  /** A step that divides a hundredth of a degree comes to the end of the rounded area. */
  lemma EndOnGrid(b: Bounds, k: nat, step: real) returns (n: nat)
    requires k as real * step == 0.01 && NonEmpty(Rounded(b))
    ensures Grid(Rounded(b).minLon, step, n) == Rounded(b).maxLon
  {
    var lo, hi := (b.minLon * 100.0).Floor, Ceil(b.maxLon * 100.0);
    assert lo as real / 100.0 <= hi as real / 100.0;
    n := (hi - lo) * k;
    assert n as real * step == (hi - lo) as real * (k as real * step);
  }

  lemma MapSizes()
    ensures Pow2(14) == 16384 && Pow2(15) == 32768 && Pow2(16) == 65536 && Pow2(17) == 131072 && Pow2(18) == 262144
  {
  }

  /** Longitudes from 0 on of which the last column is left out, for the steps that do not divide a hundredth. */
  function LostTo(level: nat): real {
    if level == 16 then 0.05 else if level == 15 then 0.09 else 0.07
  }

  /** At levels 14, 15 and 16 there is an area of which a column of tiles is never scanned. */
  lemma LastColumnLost(level: nat, project: Projection, py: real -> real, minLat: real, maxLat: real, lat: real)
    requires 14 <= level <= 16
    requires var b := Bounds(minLat, maxLat, 0.0, LostTo(level));
             Separable(project, PixelX(level), py, Rounded(b), StepOf(level), level) && Inside(b, lat, LostTo(level))
    ensures var b := Bounds(minLat, maxLat, 0.0, LostTo(level));
            TileAt(project, lat, LostTo(level), level) !in Scanned(project, b, StepOf(level), level)
  {
    hide TileAt, Scanned, TileOn, Ascending, Descending;
    var b := Bounds(minLat, maxLat, 0.0, LostTo(level));
    RoundedContains(b, lat, LostTo(level));
    HundredthsStay(level);
    var a := Columns(PixelX(level), Rounded(b), StepOf(level), level);
    LostLast(level, a);
    if Hit(a, a.to) {
      LostTile(level, a);
      EdgeSame(a);
    }
    ScannedIfHit(project, PixelX(level), py, b, StepOf(level), level, lat, LostTo(level));
  }

  lemma HundredthsStay(level: nat)
    requires 14 <= level <= 16
    ensures FloorHundredth(0.0) == 0.0 && CeilHundredth(LostTo(level)) == LostTo(level)
  {
  }

  /** How many steps the scan of that area makes. */
  function LostSteps(level: nat): nat {
    if level == 16 then 16 else if level == 15 then 12 else 4
  }

  lemma LostLast(level: nat, a: Axis)
    requires 14 <= level <= 16 && a.from == 0.0 && a.to == LostTo(level) && a.step == StepOf(level)
    ensures LastIndex(a) == LostSteps(level)
  {
    NotBeyond(a.from, a.step, a.to, LastIndex(a), LostSteps(level));
    NotBeyond(a.from, a.step, a.to, LostSteps(level), LastIndex(a));
  }

  lemma LostTile(level: nat, a: Axis)
    requires 14 <= level <= 16 && a.f == PixelX(level) && a.level == level && a.from == 0.0 && a.step == StepOf(level)
    ensures TileOn(a, ScanAt(a, LostSteps(level))) + 1 == TileOn(a, LostTo(level))
  {
    MapSizes();
    assert PixelX(level)(LostTo(level)) == (LostTo(level) + 180.0) / 360.0 * (256 * Pow2(level)) as real + 0.5;
  }
}
