/**
 The cache file is keyed by the bounds alone, up to a tolerance: what a filter that was compiled
 for one question accepts of another one.
 */
module QuadKeyStale {
  import opened MachineWords
  import opened QuadKeyWords
  import opened QuadKeyTiles
  import opened QuadKeyDedup
  import opened QuadKeyMerge
  import opened QuadKeyScan
  import opened QuadKeyBudget
  import opened QuadKeyText
  import opened QuadKeyTS

  /** The keys accept exactly the tiles of the samples, at their level. */
  ghost predicate Exact(keys: seq<QuadKey>, samples: seq<Tile>, level: nat) {
    Canonical(keys, level) && AcceptsSamples(keys, samples, level) && AcceptsOnlySamples(keys, samples, level)
  }

  /** A filter that did not have to be cut is exact. */
  lemma UncutExact(keys: seq<QuadKey>, samples: seq<Tile>, level: nat)
    requires Acceptable(keys, samples, level) && TrueFigure(SampledMerged(samples, level)) < MAX_LENGTH
    ensures Exact(keys, samples, level)
  {
  }

  /** The tile of another level is among those that were sampled, or with all its parts. */
  ghost predicate Within(t: Tile, level: nat, samples: seq<Tile>, level0: nat) {
    if level0 <= level then ZoomOut(t, level - level0) in samples
    else forall u :: ValidTile(u, level0) && ZoomOut(u, level0 - level) == t ==> u in samples
  }

  /** An exact filter accepts a tile of a finer or equal level exactly when the sampled tile around it is there. */
  lemma FinerAccepted(keys: seq<QuadKey>, samples: seq<Tile>, level0: nat, t: Tile, level: nat)
    requires Exact(keys, samples, level0) && ValidTile(t, level) && level0 <= level
    ensures Covers(keys, TileKey(t, level)) <==> Within(t, level, samples, level0)
  {
    hide Covers;
    CoversCutWord(keys, level0, TileKey(t, level));
    KeyPrefix(t, level, level0);
  }

  /** Any filter, cut or not, accepts the tiles of a finer or equal level inside the sampled ones. */
  lemma FinerStaysAccepted(keys: seq<QuadKey>, samples: seq<Tile>, level0: nat, t: Tile, level: nat)
    requires Acceptable(keys, samples, level0) && ValidTile(t, level) && level0 <= level
    requires Within(t, level, samples, level0)
    ensures Covers(keys, TileKey(t, level))
  {
    hide TileKey, ZoomOut;
    var u := ZoomOut(t, level - level0);
    KeyPrefix(t, level, level0);
    assert Covers(keys, TileKey(u, level0));
    var i :| 0 <= i < |keys| && Prefix(keys[i], TileKey(u, level0));
    var w := TileKey(t, level);
    assert Prefix(w[..level0], w) by {
      assert w == w[..level0] + w[level0..];
    }
    PrefixTransitive(keys[i], w[..level0], w);
  }

  /** An exact filter accepts a tile of a coarser level exactly when all its parts were sampled. */
  lemma CoarserAccepted(keys: seq<QuadKey>, samples: seq<Tile>, level0: nat, t: Tile, level: nat)
    requires Exact(keys, samples, level0) && ValidTile(t, level) && level < level0
    ensures Covers(keys, TileKey(t, level)) <==> Within(t, level, samples, level0)
  {
    hide TileKey, KeyTile, ZoomOut;
    var k := TileKey(t, level);
    if Covers(keys, k) {
      var i :| 0 <= i < |keys| && Prefix(keys[i], k);
      forall u | ValidTile(u, level0) && ZoomOut(u, level0 - level) == t
        ensures u in samples
      {
        KeyPrefix(u, level0, level);
        PrefixTransitive(keys[i], k, TileKey(u, level0));
      }
    }
    if Within(t, level, samples, level0) {
      forall w: QuadKey | |w| == level0 && Prefix(k, w)
        ensures Covers(keys, w)
      {
        var u := KeyTile(w);
        KeyOfTile(w);
        KeyPrefix(u, level0, level);
        assert w[..level] == k;
        TileOfKey(t, level);
        TileOfKey(ZoomOut(u, level0 - level), level);
      }
      var p := FullHasPrefix(keys, k, level0);
      CoversIntro(keys, p, k);
    }
  }

  /**
   A filter that was compiled for some samples at one level, and not cut, is a filter for other
   samples at another level exactly when each of those is among the old ones or with all its parts.
   */
  lemma HitAccepts(keys: seq<QuadKey>, samples0: seq<Tile>, level0: nat, samples: seq<Tile>, level: nat)
    requires Acceptable(keys, samples0, level0) && TrueFigure(SampledMerged(samples0, level0)) < MAX_LENGTH
    requires ValidTiles(samples, level)
    ensures AcceptsSamples(keys, samples, level) <==> forall t :: t in samples ==> Within(t, level, samples0, level0)
  {
    hide Acceptable, Exact, Within, Covers, ValidTile, TileKey;
    UncutExact(keys, samples0, level0);
    forall t | t in samples
      ensures ValidTile(t, level)
      ensures Covers(keys, TileKey(t, level)) <==> Within(t, level, samples0, level0)
    {
      if level0 <= level {
        FinerAccepted(keys, samples0, level0, t, level);
      } else {
        CoarserAccepted(keys, samples0, level0, t, level);
      }
    }
  }

  /** Questions with the same level, the same step and the same bounds after rounding have the same filters. */
  lemma SameQuestion(project: Projection, q: Question, r: Question, keys: seq<QuadKey>)
    requires q.step > 0.0 && r.step == q.step && r.level == q.level && Rounded(r.bounds) == Rounded(q.bounds)
    ensures Acceptable(keys, Scanned(project, q.bounds, q.step, q.level), q.level)
       <==> Acceptable(keys, Scanned(project, r.bounds, r.step, r.level), r.level)
  {
  }

  // ---- Two hits that are no filters ----

  const HERE: Bounds := Bounds(0.0, 0.0, 0.0, 0.0)
  const NEXT_TO_HERE: Bounds := Bounds(0.0, 0.00005, 0.0, 0.0)

  /** A projection with two places, in two rows. */
  function TwoPlaces(): Projection {
    (lat: real, lon: real, level: nat) => Pixel(768.0, if lat < 0.005 then 768.0 else 1280.0)
  }

  lemma PlaceTile(lat: real, lon: real, level: nat)
    requires level == 14 || level == 16
    ensures TileAt(TwoPlaces(), lat, lon, level) == Tile(3, if lat < 0.005 then 3 else 5)
  {
    MapSizes();
  }

  /** The scan of one place sees one tile. */
  lemma HereScanned(step: real, level: nat)
    requires step > 0.0 && (level == 14 || level == 16)
    ensures Scanned(TwoPlaces(), HERE, step, level) == [Tile(3, 3)]
  {
    PlaceTile(0.0, 0.0, level);
    assert Rounded(HERE) == HERE;
    assert ScanLine(TwoPlaces(), 0.0, step, 0.0, step, level) == [];
    assert Scan(TwoPlaces(), step, HERE, step, level) == [];
  }

  /** One tile whose key does not end in 0 is compiled to its key. */
  lemma OneTileCompiles(t: Tile, level: nat)
    requires ValidTile(t, level) && level > 0 && LowDigit(t) != '0' && level <= 18
    ensures TrueFigure(SampledMerged([t], level)) < MAX_LENGTH && !ShortArea([t], level)
  {
    hide Shows, Merged, TileKey;
    var k := TileKey(t, level);
    KeyEndsInLowDigit(t, level);
    OneKeySampled(t, level);
    OneKeyMerged(k, level);
    assert TrueFigure([k]) == |k| + 197 by {
      WeightAppend([], k);
      assert [] + [k] == [k];
    }
    OneKeyReads(k);
    if c :| Shows(c, [t], level) && ReadsPastEnd(c) {
      ShowsIsCanonical(c, [t], level);
      MergedIsTheCanonical([k], level, c);
    }
  }

  lemma OneKeyReads(k: QuadKey)
    requires k != [] && QuadKeyWords.Last(k) != '0'
    ensures !ReadsPastEnd([k])
  {
    assert !EndsInSiblings([k], 0);
  }

  lemma KeyEndsInLowDigit(t: Tile, level: nat)
    requires level > 0
    ensures TileKey(t, level) != [] && QuadKeyWords.Last(TileKey(t, level)) == LowDigit(t)
  {
  }

  lemma OneKeySampled(t: Tile, level: nat)
    ensures Sampled([t], level) == [TileKey(t, level)] && ValidTiles([], level)
  {
    EmptyKeys(level);
    TileKeysAppend([], t, level);
    assert [] + [t] == [t];
    DedupNoDup([TileKey(t, level)]);
  }

  lemma OneKeyMerged(k: QuadKey, level: nat)
    requires |k| == level
    ensures Distinct([k], level) && Merged([k], level) == [k]
  {
    MergedIsTheCanonical([k], level, [k]);
    assert NoQuad([k]) by {
      forall m: QuadKey
        ensures !HasQuad([k], m)
      {
        assert Child(m, '0')[|m|] != Child(m, '1')[|m|];
      }
    }
  }

  /** The filter of one place, compiled at level 16. */
  method CompileHere() returns (q: QuadKeyTS)
    ensures fresh(q) && q.Valid() && q.Traced() && q.project == TwoPlaces() && q.levelOfDetail == 16
    ensures q.latLonVariation == 0.001 && q.cacheFile.CacheFile? && q.cacheFile.bounds == HERE && q.cacheFile.keys != []
    ensures Acceptable(q.cacheFile.keys, [Tile(3, 3)], 16)
  {
    hide Acceptable, Scanned, ShortArea, FilterText;
    q := new QuadKeyTS(TwoPlaces(), NoFile);
    NoAnswer(HERE);
    HereScanned(0.001, 16);
    MapSizes();
    OneTileCompiles(Tile(3, 3), 16);
    var answer, found := q.GetQuadKeyFilter(HERE, true);
    SomeKey(q.cacheFile.keys);
    assert Written(HERE) == HERE;
  }

  lemma SomeKey(keys: seq<QuadKey>)
    requires Acceptable(keys, [Tile(3, 3)], 16)
    ensures keys != []
  {
    MapSizes();
    var t := [Tile(3, 3)][0];
    assert t in [Tile(3, 3)] && ValidTile(t, 16);
    assert Covers(keys, TileKey(t, 16));
  }

  /** After a change of the level the keys of the old one are printed: the tile that is asked for is not accepted. */
  method StaleLevel() returns (q: QuadKeyTS, answer: Answer, found: bool)
    ensures found && q.cacheFile.CacheFile? && answer == Filter(FilterText(q.cacheFile.keys))
    ensures q.Valid() && q.levelOfDetail == 14 && !AcceptsSamples(q.cacheFile.keys, q.Samples(HERE), 14)
  {
    hide Acceptable, FilterText, AcceptsSamples, Scanned;
    q := CompileHere();
    q.SetLevelOfDetail(14);
    HereScanned(q.latLonVariation, 14);
    answer, found := q.GetQuadKeyFilter(HERE, true);
    MapSizes();
    OneTileCompiles(Tile(3, 3), 16);
    HitAccepts(q.cacheFile.keys, [Tile(3, 3)], 16, [Tile(3, 3)], 14);
    NotWhole();
  }

  lemma NotWhole()
    ensures !Within(Tile(3, 3), 14, [Tile(3, 3)], 16)
  {
    MapSizes();
    var u := Tile(12, 13);
    assert ZoomOut(u, 2) == Tile(3, 3) by {
      assert ShiftRight(12, 2) == ShiftRight(6, 1) == ShiftRight(3, 0);
      assert ShiftRight(13, 2) == ShiftRight(6, 1) == ShiftRight(3, 0);
    }
    assert ValidTile(u, 16);
  }

  /** Bounds that differ by less than the tolerance may be rounded to different hundredths: a row is not accepted. */
  method StaleBounds() returns (q: QuadKeyTS, answer: Answer, found: bool)
    ensures found && q.cacheFile.CacheFile? && answer == Filter(FilterText(q.cacheFile.keys))
    ensures q.Valid() && q.levelOfDetail == 16 && !AcceptsSamples(q.cacheFile.keys, q.Samples(NEXT_TO_HERE), 16)
  {
    hide Acceptable, FilterText, AcceptsSamples;
    q := CompileHere();
    NextScanned();
    answer, found := q.GetQuadKeyFilter(NEXT_TO_HERE, true);
    MapSizes();
    OneTileCompiles(Tile(3, 3), 16);
    var samples := q.Samples(NEXT_TO_HERE);
    HitAccepts(q.cacheFile.keys, [Tile(3, 3)], 16, samples, 16);
    assert !Within(Tile(3, 5), 16, [Tile(3, 3)], 16);
  }

  lemma NextScanned()
    ensures Tile(3, 5) in Scanned(TwoPlaces(), NEXT_TO_HERE, 0.001, 16)
    ensures |Scanned(TwoPlaces(), NEXT_TO_HERE, 0.001, 16)| < TWO_64
  {
    hide Scan, TileAt;
    var b := Bounds(0.0, 0.01, 0.0, 0.0);
    NextRounded();
    OneColumn(0.0, b, 0.001, 16);
    PlaceTile(Grid(0.0, 0.001, 10), Grid(0.0, 0.001, 0), 16);
    GridScanned(TwoPlaces(), 0.0, b, 0.001, 16, 10, 0);
  }

  lemma NextRounded()
    ensures Rounded(NEXT_TO_HERE) == Bounds(0.0, 0.01, 0.0, 0.0)
  {
    assert 0.00005 * 100.0 == 0.005;
  }

  /** The scan of one longitude sees no more tiles than it has lines. */
  lemma {:induction false} OneColumn(lat: real, b: Bounds, step: real, level: nat)
    requires step > 0.0 && b.minLon == b.maxLon
    ensures |Scan(TwoPlaces(), lat, b, step, level)| <= Room(lat, b.maxLat, step)
    decreases Room(lat, b.maxLat, step)
  {
    hide TileAt;
    if lat <= b.maxLat {
      RoomShrinks(lat, b.maxLat, step);
      OneColumn(lat + step, b, step, level);
      assert ScanLine(TwoPlaces(), lat, b.minLon + step, b.maxLon, step, level) == [];
    }
  }
}
