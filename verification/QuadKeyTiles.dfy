/**
 Tiles and quadkeys: the digit loop of `QuadKeyTS`, and the square of tiles a key names.

 A tile at level `n` is a pair of coordinates below 2^n. Its quadkey interleaves the bits
 of the two coordinates, most significant first.
 */
module QuadKeyTiles {
  import opened MachineWords
  import opened QuadKeyWords

  datatype Tile = Tile(x: nat, y: nat)

  predicate ValidTile(t: Tile, level: nat) {
    t.x < Pow2(level) && t.y < Pow2(level)
  }

  /** `tile >> steps` */
  function ShiftRight(tile: nat, steps: nat): nat {
    if steps == 0 then tile else ShiftRight(tile / 2, steps - 1)
  }

  /** `(tile & (1 << b)) != 0` */
  predicate BitSet(tile: nat, b: nat) {
    ShiftRight(tile, b) % 2 != 0
  }

  function BitsToDigit(bitX: nat, bitY: nat): Digit
    requires bitX < 2 && bitY < 2
  {
    ('0' as int + bitX + 2 * bitY) as char
  }

  function DigitX(d: Digit): nat {
    (d as int - '0' as int) % 2
  }

  function DigitY(d: Digit): nat {
    (d as int - '0' as int) / 2
  }

  function Half(t: Tile): Tile {
    Tile(t.x / 2, t.y / 2)
  }

  /** The digit of a tile among the four children of the tile above it. */
  function LowDigit(t: Tile): Digit {
    BitsToDigit(t.x % 2, t.y % 2)
  }

  /** The quadkey of a tile, least significant digit last. */
  function TileKey(t: Tile, n: nat): (k: QuadKey)
    ensures |k| == n
    decreases n
  {
    if n == 0 then [] else TileKey(Half(t), n - 1) + [LowDigit(t)]
  }

  /** The tile `steps` levels up that contains `t`. */
  function ZoomOut(t: Tile, steps: nat): Tile {
    Tile(ShiftRight(t.x, steps), ShiftRight(t.y, steps))
  }

  /** The tile a key names at its own level. */
  function KeyTile(k: QuadKey): (t: Tile)
    ensures ValidTile(t, |k|)
  {
    if k == [] then Tile(0, 0) else Quarter(KeyTile(Parent(k)), Last(k))
  }

  /** One of the four tiles below a tile. */
  function Quarter(t: Tile, d: Digit): Tile {
    Tile(2 * t.x + DigitX(d), 2 * t.y + DigitY(d))
  }

  lemma QuarterHalf(t: Tile, d: Digit)
    ensures Half(Quarter(t, d)) == t && LowDigit(Quarter(t, d)) == d
  {
  }

  lemma HalfQuarter(t: Tile)
    ensures Quarter(Half(t), LowDigit(t)) == t
  {
  }

  // ---- Shifting ----

  lemma {:induction false} ShiftOneMore(x: nat, n: nat)
    ensures ShiftRight(x, n + 1) == ShiftRight(x, n) / 2
  {
    if n > 0 {
      ShiftOneMore(x / 2, n - 1);
    }
  }

  lemma {:induction false} ShiftBelow(x: nat, level: nat, n: nat)
    requires n <= level && x < Pow2(level)
    ensures ShiftRight(x, n) < Pow2(level - n)
  {
    if n > 0 {
      ShiftBelow(x / 2, level - 1, n - 1);
    }
  }

  lemma ZoomedTileValid(t: Tile, level: nat, steps: nat)
    requires steps <= level && ValidTile(t, level)
    ensures ValidTile(ZoomOut(t, steps), level - steps)
  {
    ShiftBelow(t.x, level, steps);
    ShiftBelow(t.y, level, steps);
  }

  // ---- The digit loop ----

  /** The next digit zooms in by one level. */
  lemma DigitStep(t: Tile, i: nat, n: nat)
    ensures TileKey(ZoomOut(t, i), n + 1) == TileKey(ZoomOut(t, i + 1), n) + [LowDigit(ZoomOut(t, i))]
  {
    ShiftOneMore(t.x, i);
    ShiftOneMore(t.y, i);
    assert Half(ZoomOut(t, i)) == ZoomOut(t, i + 1);
  }

  /** `digit++` once for the x bit and twice for the y bit. */
  method DigitOfBits(bitX: bool, bitY: bool) returns (digit: Digit)
    ensures digit == BitsToDigit(if bitX then 1 else 0, if bitY then 1 else 0)
  {
    var code := '0' as int;
    if bitX {
      code := code + 1;
    }
    if bitY {
      code := code + 1;
      code := code + 1;
    }
    digit := code as char;
  }

  /** The loop that turns tile coordinates into a key, from the top bit down. */
  method TileToQuadKey(t: Tile, levelOfDetail: nat) returns (quadKey: QuadKey)
    requires ValidTile(t, levelOfDetail)
    ensures quadKey == TileKey(t, levelOfDetail)
    ensures KeyTile(quadKey) == t
  {
    quadKey := [];
    var i := levelOfDetail;
    ghost var n := 0;
    while i > 0
      invariant 0 <= i && i + n == levelOfDetail
      invariant quadKey == TileKey(ZoomOut(t, i), n)
    {
      i := i - 1;
      var digit := DigitOfBits(BitSet(t.x, i), BitSet(t.y, i));
      DigitStep(t, i, n);
      quadKey := quadKey + [digit];
      n := n + 1;
    }
    assert n == levelOfDetail && ZoomOut(t, 0) == t;
    TileOfKey(t, levelOfDetail);
  }

  /** Each digit counts one for the bit of its weight in x, and two for the one in y. */
  lemma {:induction false} KeyDigits(t: Tile, n: nat, k: nat)
    requires k < n
    ensures TileKey(t, n)[k] as int
         == 0x30 + ShiftRight(t.x, n - 1 - k) % 2 + 2 * (ShiftRight(t.y, n - 1 - k) % 2)
    decreases n
  {
    if k < n - 1 {
      KeyDigits(Half(t), n - 1, k);
    }
  }

  // ---- Tiles and keys determine each other ----

  /** The key determines the tile. */
  lemma {:induction false} TileOfKey(t: Tile, n: nat)
    requires ValidTile(t, n)
    ensures KeyTile(TileKey(t, n)) == t
    decreases n
  {
    if n > 0 {
      TileOfKey(Half(t), n - 1);
      assert Parent(TileKey(t, n)) == TileKey(Half(t), n - 1);
      HalfQuarter(t);
    }
  }

  /** Every word is the key of the tile it names. */
  lemma {:induction false} KeyOfTile(k: QuadKey)
    ensures TileKey(KeyTile(k), |k|) == k
  {
    if k != [] {
      KeyOfTile(Parent(k));
      QuarterHalf(KeyTile(Parent(k)), Last(k));
      assert k == Parent(k) + [Last(k)];
    }
  }

  /** Dropping digits from the end of a key zooms out. */
  lemma {:induction false} PrefixZoomsOut(t: Tile, n: nat, steps: nat)
    requires steps <= n
    ensures TileKey(t, n)[..n - steps] == TileKey(ZoomOut(t, steps), n - steps)
    decreases n
  {
    if steps == 0 {
      assert TileKey(t, n)[..n] == TileKey(t, n);
    } else {
      PrefixZoomsOut(Half(t), n - 1, steps - 1);
      assert ZoomOut(Half(t), steps - 1) == ZoomOut(t, steps);
      assert TileKey(t, n)[..n - steps] == TileKey(Half(t), n - 1)[..n - steps];
    }
  }

  lemma SameKeySameTile(k: QuadKey, t: Tile)
    requires ValidTile(t, |k|)
    ensures k == TileKey(t, |k|) <==> KeyTile(k) == t
  {
    TileOfKey(t, |k|);
    KeyOfTile(k);
  }

  /** The first digits of a tile's key are the key of the tile above. */
  lemma KeyPrefix(t: Tile, level: nat, n: nat)
    requires n <= level && ValidTile(t, level)
    ensures TileKey(t, level)[..n] == TileKey(ZoomOut(t, level - n), n)
    ensures ValidTile(ZoomOut(t, level - n), n)
  {
    var steps := level - n;
    assert level - steps == n;
    PrefixZoomsOut(t, level, steps);
    ZoomedTileValid(t, level, steps);
  }

  /** A key accepts exactly the tiles of its square. */
  lemma KeyIsSquare(k: QuadKey, t: Tile, level: nat)
    requires |k| <= level && ValidTile(t, level)
    ensures Prefix(k, TileKey(t, level)) <==> KeyTile(k) == ZoomOut(t, level - |k|)
  {
    var above := ZoomOut(t, level - |k|);
    KeyPrefix(t, level, |k|);
    SameKeySameTile(k, above);
    assert Prefix(k, TileKey(t, level)) <==> k == TileKey(t, level)[..|k|];
  }

  /** A complete quadruple is the square of its parent cut in four. */
  lemma SiblingsTileParent(m: QuadKey, d: Digit)
    ensures KeyTile(Child(m, d)) == Quarter(KeyTile(m), d)
  {
  }

  /** The pixel arithmetic in front of the loop always yields a tile of the level. */
  lemma PixelToTile(pixel: nat, level: nat)
    requires pixel <= 256 * Pow2(level) - 1
    ensures pixel / 256 < Pow2(level)
  {
  }
}
