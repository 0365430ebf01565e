/**
 The quadkey filter compiler (`QuadKeys::QuadKeyTS`): from sampled tiles to the text of the
 broker-side filter, with its cache file.
 */
module QuadKeyTS {
  import opened MachineWords
  import opened QuadKeyWords
  import opened Reals
  import opened Sequences
  import opened QuadKeyTiles
  import opened QuadKeyScan
  import opened QuadKeyDedup
  import opened QuadKeyUnify
  import opened QuadKeyMerge
  import opened QuadKeyBudget
  import opened QuadKeyText
  import opened Sorting

  // ---- checkdim ----

  lemma WithinBudget(t: int, u: int)
    requires 0 <= t && 0 <= u && Block(t) == Block(u) && Wrap32(u) < MAX_LENGTH
    ensures u < MAX_LENGTH <==> t < 0x8000_0000
  {
  }

  lemma AtMostWeaken(keys: seq<QuadKey>, a: nat, b: nat)
    requires AtMost(keys, a) && a <= b
    ensures AtMost(keys, b)
  {
  }

  /** Keys that do not fit include one of more than five digits. */
  lemma TooLongHasLongKey(keys: seq<QuadKey>, l: nat)
    requires NoDup(keys) && AtMost(keys, l) && MAX_LENGTH <= Figure(keys)
    ensures 6 <= l
  {
    if l <= 5 {
      AtMostWeaken(keys, l, 5);
      ShortKeysFit(keys);
    }
  }

  /** No key has between `l + 1` and `level` digits: those have been cut or were not there. */
  predicate NoneBetween(keys: seq<QuadKey>, l: nat, level: nat) {
    forall i :: 0 <= i < |keys| ==> |keys[i]| <= l || level < |keys[i]|
  }

  lemma NoneBetweenAtMost(keys: seq<QuadKey>, l: nat, level: nat)
    requires l <= level && AtMost(keys, level)
    ensures NoneBetween(keys, l, level) ==> AtMost(keys, l)
  {
  }

  /** What one cut keeps. */
  lemma ShrinkAtKeeps(keys: seq<QuadKey>, at: nat, l: nat, level: nat)
    requires NoneBetween(keys, l, level) && MAX_LENGTH <= Figure(keys)
    requires at < |keys| && |keys[at]| == l && 0 < l <= 18
    ensures NoDup(ShrinkAt(keys, at)) && NoneBetween(ShrinkAt(keys, at), l, level) && |ShrinkAt(keys, at)| <= |keys|
    ensures Coarsens(ShrinkAt(keys, at), keys)
    ensures Weight(ShrinkAt(keys, at)) < Weight(keys)
    ensures NoDup(keys) ==> SameBlock(ShrinkAt(keys, at), keys)
  {
    hide Coarsens, NoneBetween, Accumulate;
    ShrinkAtCoarsens(keys, at);
    ShrinkAtWeight(keys, at);
    ShrinkAtLength(keys, at, l, level);
    FigureWraps(keys);
    FigureWraps(ShrinkAt(keys, at));
  }

  lemma ShrinkAtLength(keys: seq<QuadKey>, at: nat, l: nat, level: nat)
    requires NoneBetween(keys, l, level) && at < |keys| && 0 < |keys[at]| <= l
    ensures NoneBetween(ShrinkAt(keys, at), l, level) && NoDup(ShrinkAt(keys, at))
  {
    var b, e := ShrinkAt(keys, at), Cut(keys, at);
    forall i | 0 <= i < |b|
      ensures |b[i]| <= l || level < |b[i]|
    {
      assert b[i] in e;
      var j :| 0 <= j < |e| && e[j] == b[i];
    }
  }

  /** Going from `keys` to `vf`, only keys of `l` digits have lost one, and all others have stayed. */
  ghost predicate CutFrom(vf: seq<QuadKey>, keys: seq<QuadKey>, l: nat) {
    && (forall x: QuadKey :: x in keys && |x| != l ==> x in vf)
    && (forall x: QuadKey :: x in vf && x !in keys ==> |x| == l - 1)
  }

  lemma ShrinkAtCuts(keys: seq<QuadKey>, at: nat)
    requires at < |keys| && keys[at] != []
    ensures CutFrom(ShrinkAt(keys, at), keys, |keys[at]|)
  {
    var e := Cut(keys, at);
    forall x: QuadKey | x in keys && |x| != |keys[at]|
      ensures x in e
    {
      var i :| 0 <= i < |keys| && keys[i] == x;
      assert e[if i < at then i else i - 1] == x;
    }
    forall x: QuadKey | x in e && x !in keys
      ensures |x| == |keys[at]| - 1
    {
    }
  }

  /**
   Only the longest keys have been cut, down to `l` digits: a shorter key stays, a key of `l + 1` to
   `level` digits is gone, and what is new has lost a digit at `l` digits or above.
   */
  ghost predicate LongestCut(vf: seq<QuadKey>, keys: seq<QuadKey>, l: nat, level: nat) {
    && NoneBetween(vf, l, level)
    && (forall x: QuadKey :: x in keys && (|x| < l || level < |x|) ==> x in vf)
    && (forall x: QuadKey :: x in vf && x !in keys ==> l - 1 <= |x| < level)
  }

  lemma CutFurther(next: seq<QuadKey>, vf: seq<QuadKey>, keys: seq<QuadKey>, m: nat, l: nat, level: nat)
    requires LongestCut(vf, keys, l, level) && CutFrom(next, vf, l)
    requires l - 1 <= m <= l <= level && NoneBetween(next, m, level)
    ensures LongestCut(next, keys, m, level)
  {
  }

  /** Cutting has not gone past a multiple of 2^32, nor further below the bound than one key is worth. */
  predicate SameBlock(vf: seq<QuadKey>, keys: seq<QuadKey>) {
    Block(TrueFigure(vf)) == Block(TrueFigure(keys)) && Figure(vf) >= MAX_LENGTH - 39
  }

  /**
   One round: cut one of the longest keys and remove the copies, or look for shorter ones next.
   When there are none left to look for, nothing is done.
   */
  method CutOnce(keys: seq<QuadKey>, l: nat, ghost level: nat) returns (vf: seq<QuadKey>, next: nat)
    requires NoneBetween(keys, l, level) && MAX_LENGTH <= Figure(keys)
    requires |keys| < TWO_64 && 0 < l <= 18 && l <= level
    ensures next <= l && NoneBetween(vf, next, level) && |vf| <= |keys|
    ensures Coarsens(vf, keys)
    ensures l - 1 <= next && CutFrom(vf, keys, l)
    ensures next + Weight(vf) < l + Weight(keys) && Weight(vf) <= Weight(keys)
    ensures next == 0 ==> vf == keys && l == 1
    ensures next > 0 ==> NoDup(vf)
    ensures NoDup(keys) ==> SameBlock(vf, keys)
  {
    ghost var at;
    vf, next, at := ShrinkOne(keys, l);
    if next < 1 {
      CoarsensReflexive(keys);
      return;
    }
    vf := RemoveDuplicates(vf);
    DedupLightens(keys);
    if next == l {
      ShrinkAtKeeps(keys, at, l, level);
      ShrinkAtCuts(keys, at);
    } else {
      DedupKeeps(keys, l, level);
    }
  }

  lemma DedupKeeps(keys: seq<QuadKey>, l: nat, level: nat)
    requires 0 < l && NoneBetween(keys, l, level) && forall i :: 0 <= i < |keys| ==> |keys[i]| != l
    ensures NoneBetween(Dedup(keys), l - 1, level) && Coarsens(Dedup(keys), keys)
    ensures NoDup(keys) ==> Dedup(keys) == keys
  {
    var b := Dedup(keys);
    if NoDup(keys) {
      DedupNoDup(keys);
    }
    forall i | 0 <= i < |b|
      ensures (|b[i]| <= l - 1 || level < |b[i]|) && Extended(keys, b[i])
    {
      assert b[i] in keys;
    }
    forall i | 0 <= i < |keys|
      ensures Covers(b, keys[i])
    {
      assert keys[i] in b;
      CoversIntro(b, keys[i], keys[i]);
    }
  }

  lemma CoarserAtMost(vf: seq<QuadKey>, keys: seq<QuadKey>, level: nat)
    requires Coarsens(vf, keys) && AtMost(keys, level)
    ensures AtMost(vf, level)
  {
    forall i | 0 <= i < |vf|
      ensures |vf[i]| <= level
    {
      assert Extended(keys, vf[i]);
    }
  }

  /** With keys no longer than the level there is always something left to cut. */
  lemma NeverGivesUp(vf: seq<QuadKey>, keys: seq<QuadKey>, l: nat, level: nat)
    requires Coarsens(vf, keys) && AtMost(keys, level) && NoneBetween(vf, l, level) && l <= level
    requires NoDup(vf) && MAX_LENGTH <= Figure(vf)
    ensures 6 <= l
  {
    CoarserAtMost(vf, keys, level);
    NoneBetweenAtMost(vf, l, level);
    TooLongHasLongKey(vf, l);
  }

  /**
   `checkdim`: cut the longest keys of up to `levelOfDetail` digits until the filter text fits.
   The exit on `l < 1` is taken only with keys that are longer, because keys of at most five
   digits always fit. Of distinct keys, as they come from the merge, no more is cut than one
   key too much.
   */
  method CheckDim(quadKeys: seq<QuadKey>, levelOfDetail: nat) returns (vf: seq<QuadKey>)
    requires |quadKeys| < TWO_64 && 14 <= levelOfDetail <= 18
    ensures |vf| <= |quadKeys| && Coarsens(vf, quadKeys)
    ensures Figure(quadKeys) < MAX_LENGTH ==> vf == quadKeys
    ensures Figure(quadKeys) >= MAX_LENGTH || NoDup(quadKeys) ==> NoDup(vf)
    ensures exists l: nat :: 0 < l <= levelOfDetail && LongestCut(vf, quadKeys, l, levelOfDetail)
    ensures Figure(vf) < MAX_LENGTH || NoneBetween(vf, 0, levelOfDetail)
    ensures AtMost(quadKeys, levelOfDetail) ==> AtMost(vf, levelOfDetail) && Figure(vf) < MAX_LENGTH
    ensures NoDup(quadKeys) && Figure(quadKeys) >= MAX_LENGTH ==> Figure(vf) >= MAX_LENGTH - 39
    ensures TrueFigure(quadKeys) < 0x8000_0000 && Figure(vf) < MAX_LENGTH ==> TrueFigure(vf) < MAX_LENGTH
    ensures NoDup(quadKeys) && TrueFigure(vf) < MAX_LENGTH ==> TrueFigure(quadKeys) < 0x8000_0000
  {
    hide NoDup, AtMost, NoneBetween, Coarsens, Figure, TrueFigure, Block, Weight, CutFrom;
    vf := quadKeys;
    var l := levelOfDetail;
    CoarsensReflexive(quadKeys);
    AllBetween(quadKeys, l);
    while Figure(vf) >= MAX_LENGTH
      invariant 0 < l <= levelOfDetail && (NoDup(vf) || l == levelOfDetail)
      invariant LongestCut(vf, quadKeys, l, levelOfDetail)
      invariant NoneBetween(vf, l, levelOfDetail) && |vf| <= |quadKeys| && Weight(vf) <= Weight(quadKeys)
      invariant Coarsens(vf, quadKeys)
      invariant vf == quadKeys || (NoDup(vf) && Figure(quadKeys) >= MAX_LENGTH)
      invariant NoDup(quadKeys) && Figure(quadKeys) >= MAX_LENGTH ==> Figure(vf) >= MAX_LENGTH - 39
      invariant NoDup(quadKeys) ==> NoDup(vf) && Block(TrueFigure(vf)) == Block(TrueFigure(quadKeys))
      decreases l + Weight(vf)
    {
      if AtMost(quadKeys, levelOfDetail) && NoDup(vf) {
        NeverGivesUp(vf, quadKeys, l, levelOfDetail);
      }
      var next, shorter := CutOnce(vf, l, levelOfDetail);
      if shorter < 1 {
        break;
      }
      CoarsensTransitive(next, vf, quadKeys);
      CutFurther(next, vf, quadKeys, shorter, l, levelOfDetail);
      vf, l := next, shorter;
    }
    if AtMost(quadKeys, levelOfDetail) {
      CoarserAtMost(vf, quadKeys, levelOfDetail);
    }
    CutFits(quadKeys, vf);
  }

  lemma AllBetween(keys: seq<QuadKey>, level: nat)
    ensures NoneBetween(keys, level, level)
  {
  }

  lemma CutFits(keys: seq<QuadKey>, vf: seq<QuadKey>)
    requires Weight(vf) <= Weight(keys)
    ensures TrueFigure(keys) < 0x8000_0000 && Figure(vf) < MAX_LENGTH ==> TrueFigure(vf) < MAX_LENGTH
    ensures Block(TrueFigure(vf)) == Block(TrueFigure(keys)) && TrueFigure(vf) < MAX_LENGTH ==>
              TrueFigure(keys) < 0x8000_0000
  {
    FigureWraps(vf);
    FigureNonNegative(vf);
    FigureNonNegative(keys);
    if Block(TrueFigure(vf)) == Block(TrueFigure(keys)) && Figure(vf) < MAX_LENGTH {
      WithinBudget(TrueFigure(keys), TrueFigure(vf));
    }
  }

  lemma FigureNonNegative(keys: seq<QuadKey>)
    ensures 0 <= TrueFigure(keys)
  {
  }

  // ---- LatLonToQuadKeyRange, from the sampled tiles on ----

  function TileKeys(samples: seq<Tile>, level: nat): (keys: seq<QuadKey>)
    ensures |keys| == |samples|
    ensures forall i :: 0 <= i < |samples| ==> keys[i] == TileKey(samples[i], level)
  {
    if samples == [] then [] else TileKeys(samples[..|samples| - 1], level) + [TileKey(samples[|samples| - 1], level)]
  }

  lemma TileKeysAppend(ts: seq<Tile>, t: Tile, level: nat)
    ensures TileKeys(ts + [t], level) == TileKeys(ts, level) + [TileKey(t, level)]
  {
  }

  predicate ValidTiles(samples: seq<Tile>, level: nat) {
    forall i :: 0 <= i < |samples| ==> ValidTile(samples[i], level)
  }

  lemma ScanLineStep(ts: seq<Tile>, project: Projection, j: real, k: real, b: Bounds, step: real, level: nat,
                     rest: seq<Tile>)
    requires step > 0.0 && k <= b.maxLon
    ensures ts + ScanLine(project, j, k, b.maxLon, step, level) + rest
         == ts + [TileAt(project, j, k, level)] + ScanLine(project, j, k + step, b.maxLon, step, level) + rest
  {
    var t, more := TileAt(project, j, k, level), ScanLine(project, j, k + step, b.maxLon, step, level);
    assert ts + ([t] + more) + rest == ts + [t] + more + rest;
  }

  /** The scan of the area and the removal of repeated keys. */
  method QuadKeyRange(project: Projection, bounds: Bounds, step: real, levelOfDetail: nat) returns (v: seq<QuadKey>)
    requires step > 0.0 && |Scanned(project, bounds, step, levelOfDetail)| < TWO_64
    ensures v == Sampled(Scanned(project, bounds, step, levelOfDetail), levelOfDetail)
    ensures Distinct(v, levelOfDetail) && |v| <= |Scanned(project, bounds, step, levelOfDetail)|
  {
    hide TileKeys, TileAt, ScanLine;
    ghost var all := Scanned(project, bounds, step, levelOfDetail);
    var b := Rounded(bounds);
    v := [];
    ghost var seen: seq<Tile> := [];
    EmptyKeys(levelOfDetail);
    var j := b.minLat;
    while j <= b.maxLat
      invariant v == TileKeys(seen, levelOfDetail)
      invariant seen + Scan(project, j, b, step, levelOfDetail) == all
      decreases Room(j, b.maxLat, step)
    {
      RoomShrinks(j, b.maxLat, step);
      ghost var rest := Scan(project, j + step, b, step, levelOfDetail);
      var k := b.minLon;
      assert seen + ScanLine(project, j, k, b.maxLon, step, levelOfDetail) + rest == all;
      while k <= b.maxLon
        invariant v == TileKeys(seen, levelOfDetail)
        invariant seen + ScanLine(project, j, k, b.maxLon, step, levelOfDetail) + rest == all
        decreases Room(k, b.maxLon, step)
      {
        RoomShrinks(k, b.maxLon, step);
        ScanLineStep(seen, project, j, k, b, step, levelOfDetail, rest);
        var tile := TileAt(project, j, k, levelOfDetail);
        var quadKey := TileToQuadKey(tile, levelOfDetail);
        TileKeysAppend(seen, tile, levelOfDetail);
        seen := seen + [tile];
        v := v + [quadKey];
        k := k + step;
      }
      ScanLineEnd(project, j, k, b, step, levelOfDetail);
      assert seen + [] + rest == seen + rest;
      j := j + step;
    }
    assert seen + [] == seen;
    v := RemoveDuplicates(v);
    RangeDistinct(all, levelOfDetail);
  }

  lemma EmptyKeys(level: nat)
    ensures TileKeys([], level) == []
  {
  }

  lemma ScanLineEnd(project: Projection, j: real, k: real, b: Bounds, step: real, level: nat)
    requires step > 0.0 && k > b.maxLon
    ensures ScanLine(project, j, k, b.maxLon, step, level) == []
  {
  }

  /** The keys of the samples, before merging. */
  function Sampled(samples: seq<Tile>, level: nat): seq<QuadKey> {
    Dedup(TileKeys(samples, level))
  }

  lemma RangeDistinct(samples: seq<Tile>, level: nat)
    ensures Distinct(Dedup(TileKeys(samples, level)), level)
    ensures |Dedup(TileKeys(samples, level))| <= |samples|
  {
  }

  /** Before merging, exactly the sampled tiles are accepted at the sampling level. */
  lemma RangeAcceptsSamples(samples: seq<Tile>, level: nat, t: Tile)
    requires ValidTiles(samples, level) && ValidTile(t, level)
    ensures Covers(Dedup(TileKeys(samples, level)), TileKey(t, level)) <==> t in samples
  {
    var keys := TileKeys(samples, level);
    var w := TileKey(t, level);
    if t in samples {
      var i :| 0 <= i < |samples| && samples[i] == t;
      assert keys[i] == w;
      CoversIntro(Dedup(keys), w, w);
    }
    if Covers(Dedup(keys), w) {
      var j :| 0 <= j < |Dedup(keys)| && Prefix(Dedup(keys)[j], w);
      var k := Dedup(keys)[j];
      assert k in keys;
      var i :| 0 <= i < |keys| && keys[i] == k;
      assert k == w;
      TileOfKey(t, level);
      TileOfKey(samples[i], level);
    }
  }

  // ---- getQuadKeyFilter and the cache file ----

  /**
   The cache file: four lines of bounds, then one key a line. A broken one ends before its fourth
   line, or holds something else than a number in one of the four.
   */
  datatype CacheFile = NoFile | Broken(cause: Cause) | CacheFile(bounds: Bounds, keys: seq<QuadKey>)

  /** What `vector::at` and `stod` throw. */
  datatype Cause = PastTheEnd | NotANumber

  datatype Answer = Filter(text: string) | Throws(cause: Cause)

  /** `doublecomp` with its default tolerance. */
  predicate Close(a: real, b: real) {
    Abs(a - b) < 0.0001
  }

  /** `std::fixed << std::setprecision(6)` */
  function SixDigits(r: real): real {
    (r * 1000000.0 + 0.5).Floor as real / 1000000.0
  }

  function Written(b: Bounds): Bounds {
    Bounds(SixDigits(b.minLat), SixDigits(b.maxLat), SixDigits(b.minLon), SixDigits(b.maxLon))
  }

  /** The file was made for these bounds and holds at least one key. */
  predicate CacheAnswers(file: CacheFile, b: Bounds) {
    && file.CacheFile?
    && Close(file.bounds.minLat, b.minLat) && Close(file.bounds.maxLat, b.maxLat)
    && Close(file.bounds.minLon, b.minLon) && Close(file.bounds.maxLon, b.maxLon)
    && file.keys != []
  }

  /** Two bounds differ by less than a ten-thousandth of a degree, each. */
  predicate Nearby(a: Bounds, b: Bounds) {
    && -0.0001 < a.minLat - b.minLat < 0.0001 && -0.0001 < a.maxLat - b.maxLat < 0.0001
    && -0.0001 < a.minLon - b.minLon < 0.0001 && -0.0001 < a.maxLon - b.maxLon < 0.0001
  }

  /** Exactly which files answer; and the digits written are enough, so that a file answers its own bounds. */
  lemma AnswersNearby(file: CacheFile, b: Bounds)
    ensures CacheAnswers(file, b) <==> file.CacheFile? && file.keys != [] && Nearby(file.bounds, b)
    ensures Nearby(Written(b), b)
  {
  }

  /** What a miss leaves in the file. */
  function Rewritten(file: CacheFile, b: Bounds, keys: seq<QuadKey>, writable: bool): CacheFile {
    if writable then CacheFile(Written(b), keys) else file
  }

  lemma NoAnswer(b: Bounds)
    ensures !CacheAnswers(NoFile, b) && forall cause :: !CacheAnswers(Broken(cause), b)
  {
  }

  lemma AnswerHasKeys(file: CacheFile, b: Bounds)
    requires CacheAnswers(file, b)
    ensures file.CacheFile? && file.keys != []
  {
  }

  /** What a miss writes answers the next question for the same bounds, unless no key came out. */
  lemma MissThenHit(b: Bounds, keys: seq<QuadKey>)
    ensures CacheAnswers(CacheFile(Written(b), keys), b) <==> keys != []
  {
  }

  /** The merged keys of the samples. */
  ghost function SampledMerged(samples: seq<Tile>, level: nat): seq<QuadKey> {
    Merged(Sampled(samples, level), level)
  }

  /** Every sampled tile is accepted. */
  ghost predicate AcceptsSamples(keys: seq<QuadKey>, samples: seq<Tile>, level: nat) {
    forall t :: ValidTile(t, level) && t in samples ==> Covers(keys, TileKey(t, level))
  }

  /** No other tile of the sampling level is accepted. */
  ghost predicate AcceptsOnlySamples(keys: seq<QuadKey>, samples: seq<Tile>, level: nat) {
    forall t :: ValidTile(t, level) && Covers(keys, TileKey(t, level)) ==> t in samples
  }

  /** What the compiler promises of the keys it prints for the samples. */
  ghost predicate Acceptable(keys: seq<QuadKey>, samples: seq<Tile>, level: nat) {
    var whole := TrueFigure(SampledMerged(samples, level));
    && AcceptsSamples(keys, samples, level)
    && (whole < MAX_LENGTH ==> Canonical(keys, level) && AcceptsOnlySamples(keys, samples, level))
    && (keys != [] ==> (|FilterText(keys)| < 99820 <==> whole < 0x8000_0000))
  }

  /** What the compiler promises of the text: the broker selects the sampled tiles, and no others if nothing is cut. */
  ghost predicate Promised(text: string, samples: seq<Tile>, level: nat) {
    var whole := TrueFigure(SampledMerged(samples, level));
    && (forall t :: ValidTile(t, level) && t in samples ==> Passes(text, TileKey(t, level)))
    && (whole < MAX_LENGTH ==> forall t :: ValidTile(t, level) && Passes(text, TileKey(t, level)) ==> t in samples)
    && (text != "" ==> (|text| < 99820 <==> whole < 0x8000_0000))
  }

  lemma AcceptablePromised(keys: seq<QuadKey>, samples: seq<Tile>, level: nat)
    requires Acceptable(keys, samples, level)
    ensures Promised(FilterText(keys), samples, level)
  {
    hide Covers, Passes, TileKey, SampledMerged, TrueFigure, FilterText, Canonical;
    forall t | ValidTile(t, level)
      ensures Passes(FilterText(keys), TileKey(t, level)) <==> Covers(keys, TileKey(t, level))
    {
      TextSelects(keys, TileKey(t, level));
    }
    if keys == [] {
      assert FilterText(keys) == "" by { NoKeys(); }
    }
  }

  lemma NoKeys()
    ensures FilterText([]) == ""
  {
  }

  /** Merging and cutting keep the samples accepted. */
  lemma SamplesStayAccepted(samples: seq<Tile>, level: nat, merged: seq<QuadKey>, keys: seq<QuadKey>, t: Tile)
    requires ValidTiles(samples, level) && ValidTile(t, level)
    requires SameCoverage(merged, Sampled(samples, level), level) && Coarsens(keys, merged)
    ensures t in samples ==> Covers(keys, TileKey(t, level))
    ensures keys == merged ==> (Covers(keys, TileKey(t, level)) <==> t in samples)
  {
    var w := TileKey(t, level);
    RangeAcceptsSamples(samples, level, t);
    assert Covers(merged, w) == Covers(Sampled(samples, level), w);
    if t in samples {
      CoarserAcceptsMore(keys, merged, w);
    }
  }

  lemma AllSamplesAccepted(samples: seq<Tile>, level: nat, merged: seq<QuadKey>, keys: seq<QuadKey>)
    requires ValidTiles(samples, level)
    requires SameCoverage(merged, Sampled(samples, level), level) && Coarsens(keys, merged)
    ensures AcceptsSamples(keys, samples, level)
    ensures keys == merged ==> AcceptsOnlySamples(keys, samples, level)
  {
    forall t | ValidTile(t, level)
      ensures t in samples ==> Covers(keys, TileKey(t, level))
      ensures keys == merged ==> (Covers(keys, TileKey(t, level)) <==> t in samples)
    {
      SamplesStayAccepted(samples, level, merged, keys, t);
    }
  }

  /** The filter accepts what is sent from every position of an area between whose bounds both axes are covered. */
  lemma PositionsAccepted(keys: seq<QuadKey>, project: Projection, px: real -> real, py: real -> real, b: Bounds,
                          step: real, level: nat, area: Bounds, lat: real, lon: real)
    requires step > 0.0 && AcceptsSamples(keys, Scanned(project, b, step, level), level)
    requires Separable(project, px, py, Rounded(b), step, level) && Part(area, Rounded(b))
    requires AxesCovered(px, py, Rounded(b), step, level, area) && Inside(area, lat, lon)
    ensures Covers(keys, TileKey(TileAt(project, lat, lon, level), level))
  {
    hide TileAt, Scanned, Rounded, Separable, AxesCovered;
    CoveredScanned(project, px, py, b, step, level, area, lat, lon);
  }

  // ---- The pipeline ----

  /** The ordered list shows exactly the tiles of the samples, and cannot be shortened by merging. */
  ghost predicate Shows(c: seq<QuadKey>, samples: seq<Tile>, level: nat) {
    && OrderedAntichain(c) && NoQuad(c) && AtMost(c, level)
    && forall t :: ValidTile(t, level) ==> (Covers(c, TileKey(t, level)) <==> t in samples)
  }

  /** The samples are, as an area, the first one, two or three quarters of a tile, and at most two keys before them. */
  ghost predicate ShortArea(samples: seq<Tile>, level: nat) {
    exists c :: Shows(c, samples, level) && ReadsPastEnd(c)
  }

  /** Keys no longer than the level decide by the first digits of a word. */
  lemma CoversCutWord(c: seq<QuadKey>, level: nat, w: QuadKey)
    requires AtMost(c, level) && level <= |w|
    ensures Covers(c, w) <==> Covers(c, w[..level])
  {
    var front := w[..level];
    if Covers(c, w) {
      var i :| 0 <= i < |c| && Prefix(c[i], w);
      assert c[i] == w[..|c[i]|] == front[..|c[i]|];
      assert Prefix(c[i], front);
    }
    if Covers(c, front) {
      var i :| 0 <= i < |c| && Prefix(c[i], front);
      assert w == front + w[level..];
      assert Prefix(c[i], w);
    }
  }

  lemma ShowsIsCanonical(c: seq<QuadKey>, samples: seq<Tile>, level: nat)
    requires ValidTiles(samples, level)
    ensures Shows(c, samples, level) <==> IsCanonicalFor(c, Sampled(samples, level), level)
  {
    hide OrderedAntichain, NoQuad, Covers, Dedup, TileKeys;
    var keys := Sampled(samples, level);
    RangeDistinct(samples, level);
    if IsCanonicalFor(c, keys, level) {
      forall t | ValidTile(t, level)
        ensures Covers(c, TileKey(t, level)) <==> t in samples
      {
        RangeAcceptsSamples(samples, level, t);
      }
    }
    if Shows(c, samples, level) {
      forall w: QuadKey | level <= |w|
        ensures Covers(c, w) == Covers(keys, w)
      {
        var front := w[..level];
        CoversCutWord(c, level, w);
        CoversCutWord(keys, level, w);
        KeyOfTile(front);
        RangeAcceptsSamples(samples, level, KeyTile(front));
      }
    }
  }

  lemma ShortAreaThrows(samples: seq<Tile>, level: nat)
    requires ValidTiles(samples, level)
    ensures ShortArea(samples, level)
       <==> exists c :: IsCanonicalFor(c, Sampled(samples, level), level) && ReadsPastEnd(c)
  {
    forall c
      ensures Shows(c, samples, level) <==> IsCanonicalFor(c, Sampled(samples, level), level)
    {
      ShowsIsCanonical(c, samples, level);
    }
  }

  /** From the merged keys to the printed ones. */
  lemma CutKeysAcceptable(samples: seq<Tile>, level: nat, merged: seq<QuadKey>, keys: seq<QuadKey>)
    requires ValidTiles(samples, level) && Canonical(merged, level)
    requires SameCoverage(merged, Sampled(samples, level), level) && Coarsens(keys, merged)
    requires multiset(merged) == multiset(SampledMerged(samples, level))
    requires Figure(merged) < MAX_LENGTH ==> keys == merged
    requires TrueFigure(keys) < MAX_LENGTH <==> TrueFigure(merged) < 0x8000_0000
    ensures Acceptable(keys, samples, level)
  {
    hide SampledMerged, Figure, TrueFigure, FilterText, Canonical, Coarsens, SameCoverage;
    hide AcceptsSamples, AcceptsOnlySamples;
    AllSamplesAccepted(samples, level, merged, keys);
    FigureOfPermutation(merged, SampledMerged(samples, level));
    if keys != [] {
      FilterLength(keys);
    }
  }

  /** The pipeline behind a miss. */
  method CompileKeys(project: Projection, bounds: Bounds, step: real, level: nat) returns (r: Outcome<seq<QuadKey>>)
    requires 14 <= level <= 18 && step > 0.0 && |Scanned(project, bounds, step, level)| < TWO_64
    ensures r.OutOfRange? <==> ShortArea(Scanned(project, bounds, step, level), level)
    ensures r.Done? ==> Acceptable(r.value, Scanned(project, bounds, step, level), level)
  {
    hide Scanned, ReadsPastEnd, Canonical, SameCoverage, Coarsens, Figure, TrueFigure, Merged;
    hide ShortArea, Acceptable, NoDup;
    ghost var samples := Scanned(project, bounds, step, level);
    var keys := QuadKeyRange(project, bounds, step, level);
    ShortAreaThrows(samples, level);
    DistinctReadable(keys, level);
    r := UnifyQuadkeys2(keys, level);
    if r.Done? {
      var merged := r.value;
      CanonicalNoDup(merged, level);
      CanonicalSmallest(merged, keys, level);
      var fitting := CheckDim(merged, level);
      CutKeysAcceptable(samples, level, merged, fitting);
      r := Done(fitting);
    }
  }

  lemma DistinctReadable(keys: seq<QuadKey>, level: nat)
    requires Distinct(keys, level)
    ensures Readable(Sort(LexLeq, keys), level) && AtMost(keys, level)
  {
    LongKeysReadable(keys, level);
  }

  lemma CanonicalNoDup(keys: seq<QuadKey>, level: nat)
    requires Canonical(keys, level)
    ensures NoDup(keys) && AtMost(keys, level)
  {
    PrefixFreeNoDup(keys);
  }

  /** What a filter was compiled for. */
  datatype Question = Question(bounds: Bounds, step: real, level: nat)

  class QuadKeyTS {
    const project: Projection
    var levelOfDetail: int
    var latLonVariation: real
    var cacheFile: CacheFile

    /** What the keys in the file were compiled for; none for a file that was found. */
    ghost var asked: Option<Question>

    ghost predicate Valid()
      reads this
    {
      14 <= levelOfDetail <= 18 && latLonVariation > 0.0
    }

    /** The keys in the file are those of the question they were compiled for. */
    ghost predicate Traced()
      reads this
    {
      asked.Some? ==>
        && asked.value.step > 0.0 && cacheFile.CacheFile? && cacheFile.bounds == Written(asked.value.bounds)
        && (cacheFile.keys != [] ==> FilterOf(cacheFile.keys, asked.value))
    }

    /** What the compiler promises of the keys for a question. */
    ghost predicate FilterOf(keys: seq<QuadKey>, q: Question)
      requires q.step > 0.0
      reads this
    {
      Acceptable(keys, Scanned(project, q.bounds, q.step, q.level), q.level)
    }

    /** The question that a call for these bounds would ask. */
    ghost function Asking(bounds: Bounds): Question
      requires Valid()
      reads this
    {
      Question(bounds, latLonVariation, levelOfDetail)
    }

    /** The default step is that of level 18, not that of level 16. */
    constructor (project: Projection, onDisk: CacheFile)
      ensures Valid() && levelOfDetail == 16 && latLonVariation == 0.001
      ensures this.project == project && cacheFile == onDisk && asked == None && Traced()
    {
      this.project := project;
      levelOfDetail := 16;
      latLonVariation := 0.001;
      cacheFile := onDisk;
      asked := None;
    }

    /** Levels outside 14..18 are moved to the nearer end; finer levels are scanned in smaller steps. */
    method SetLevelOfDetail(level: int)
      modifies this`levelOfDetail, this`latLonVariation
      ensures Valid()
      ensures levelOfDetail == if level < 14 then 14 else if level > 18 then 18 else level
      ensures latLonVariation == StepOf(levelOfDetail)
      ensures levelOfDetail == 18 ==> latLonVariation == 0.001
      ensures levelOfDetail == 17 ==> latLonVariation == 0.002
      ensures levelOfDetail == 16 ==> latLonVariation == 0.003
      ensures levelOfDetail == 15 ==> latLonVariation == 0.007
      ensures levelOfDetail == 14 ==> latLonVariation == 0.015
    {
      levelOfDetail := level;
      if level < 14 {
        levelOfDetail := 14;
      }
      if level > 18 {
        levelOfDetail := 18;
      }
      match levelOfDetail {
        case 18 => latLonVariation := 0.001;
        case 17 => latLonVariation := 0.002;
        case 16 => latLonVariation := 0.003;
        case 15 => latLonVariation := 0.007;
        case _ => latLonVariation := 0.015;
      }
    }

    /** The tiles of the positions that a call for these bounds would look at. */
    ghost function Samples(bounds: Bounds): seq<Tile>
      requires Valid()
      reads this
    {
      Scanned(project, bounds, latLonVariation, levelOfDetail)
    }

    /**
     `getQuadKeyFilter`. A hit prints the keys of the file, whatever question they were compiled
     for: the bounds are compared up to a tolerance, and the level is not. On a miss the file is
     truncated, if it can be written, and its four bounds are in it before the keys are merged.
     */
    method GetQuadKeyFilter(bounds: Bounds, writable: bool) returns (answer: Answer, cacheFileFound: bool)
      requires Valid() && Traced() && |Samples(bounds)| < TWO_64
      modifies this`cacheFile, this`asked
      ensures Valid() && Traced()
      ensures cacheFileFound <==> CacheAnswers(old(cacheFile), bounds)
      ensures cacheFileFound ==> cacheFile == old(cacheFile) && answer == Filter(FilterText(cacheFile.keys))
      ensures cacheFileFound ==> forall w: QuadKey :: Passes(answer.text, w) <==> Covers(cacheFile.keys, w)
      ensures cacheFileFound && asked.Some? ==>
        && FilterOf(cacheFile.keys, asked.value)
        && Promised(answer.text, Scanned(project, asked.value.bounds, asked.value.step, asked.value.level),
                    asked.value.level)
      ensures !cacheFileFound && answer.Filter? ==> Promised(answer.text, Samples(bounds), levelOfDetail)
      ensures asked ==
        if cacheFileFound || old(cacheFile).Broken? || !writable then old(asked) else Some(Asking(bounds))
      ensures old(cacheFile).Broken? ==> cacheFile == old(cacheFile) && answer == Throws(old(cacheFile).cause)
      ensures !cacheFileFound && !old(cacheFile).Broken? ==>
        && (answer.Throws? <==> ShortArea(Samples(bounds), levelOfDetail))
        && (answer.Throws? ==>
              answer.cause == PastTheEnd && cacheFile == Rewritten(old(cacheFile), bounds, [], writable))
        && (answer.Filter? ==> exists keys ::
              && Acceptable(keys, Samples(bounds), levelOfDetail) && answer.text == FilterText(keys)
              && cacheFile == Rewritten(old(cacheFile), bounds, keys, writable))
    {
      hide Acceptable, Promised, ShortArea, FilterText, CacheAnswers, Written, Scanned, Passes, Covers;
      if cacheFile.Broken? {
        NoAnswer(bounds);
        return Throws(cacheFile.cause), false;
      }
      cacheFileFound := CacheAnswers(cacheFile, bounds);
      if cacheFileFound {
        AnswerHasKeys(cacheFile, bounds);
        forall w: QuadKey
          ensures Passes(FilterText(cacheFile.keys), w) <==> Covers(cacheFile.keys, w)
        {
          TextSelects(cacheFile.keys, w);
        }
        if asked.Some? {
          var q := asked.value;
          AcceptablePromised(cacheFile.keys, Scanned(project, q.bounds, q.step, q.level), q.level);
        }
        var text := PrintFilter(cacheFile.keys);
        return Filter(text), true;
      }
      if writable {
        cacheFile := CacheFile(Written(bounds), []);
        asked := Some(Asking(bounds));
      }
      var keys := CompileKeys(project, bounds, latLonVariation, levelOfDetail);
      if keys.OutOfRange? {
        return Throws(PastTheEnd), false;
      }
      if writable {
        cacheFile := CacheFile(Written(bounds), keys.value);
      }
      AcceptablePromised(keys.value, Samples(bounds), levelOfDetail);
      var text := PrintFilter(keys.value);
      answer := Filter(text);
    }

    /**
     Asking twice for the same bounds: once a text with at least one key has come out, and the
     file could be written, the second answer is the identical text, and comes from the file.
     */
    method GetTwice(bounds: Bounds) returns (first: Answer, second: Answer, secondFound: bool)
      requires Valid() && Traced() && |Samples(bounds)| < TWO_64
      modifies this`cacheFile, this`asked
      ensures first.Filter? && first.text != "" ==> secondFound && second == first
      ensures first.Throws? ==> second == first
    {
      var found;
      first, found := GetQuadKeyFilter(bounds, true);
      if first.Filter? && first.text != "" && !found {
        MissThenHit(bounds, cacheFile.keys);
      }
      second, secondFound := GetQuadKeyFilter(bounds, true);
    }
  }
}
