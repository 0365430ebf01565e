/**
 An area so vast that the 32-bit figure of `checkdim` wraps around: the scan sees every second
 tile of every second row, so that nothing can be merged.
 */
module QuadKeyVast {
  import opened QuadKeyWords
  import opened QuadKeyTiles
  import opened QuadKeyDedup
  import opened QuadKeyUnify
  import opened QuadKeyMerge
  import opened QuadKeyScan
  import opened QuadKeyBudget
  import opened QuadKeyText
  import opened QuadKeyTS
  import opened Sequences
  import opened Sorting

  /** The key has `n` digits and ends in 0. */
  predicate LastZero(k: QuadKey, n: nat) {
    |k| == n && k != [] && Last(k) == '0'
  }

  lemma {:induction false} WeightOfLength(keys: seq<QuadKey>, n: nat)
    requires forall i :: 0 <= i < |keys| ==> |keys[i]| == n
    ensures Weight(keys) == |keys| * (n + 21)
  {
    if keys != [] {
      WeightOfLength(keys[1..], n);
    }
  }

  /** Distinct keys of one length that end in 0 are sorted and left as they are by the merge. */
  lemma MergedOnlySorted(keys: seq<QuadKey>, level: nat)
    requires NoDup(keys) && forall i :: 0 <= i < |keys| ==> LastZero(keys[i], level)
    ensures Distinct(keys, level) && multiset(Merged(keys, level)) == multiset(keys)
  {
    hide RoundInvariant;
    var sorted := Sort(LexLeq, keys);
    SortedKeysRound(keys, level);
    SameMembers(sorted, keys);
    forall m: QuadKey
      ensures Child(m, '1') !in sorted
    {
      assert Last(Child(m, '1')) == '1';
    }
    NothingToMerge(sorted, level);
  }

  lemma NothingToMerge(sorted: seq<QuadKey>, level: nat)
    requires NoQuad(sorted)
    ensures Rounds(sorted, level) == sorted
  {
    SameLengthSameList(sorted);
    if Pass(sorted) != sorted {
      var j := MergeFindsQuad(sorted, 0);
      QuadAtHasQuad(sorted, j);
    }
  }

  // ---- The area ----

  const STEP: real := 0.001
  const AREA: Bounds := Bounds(0.0, 8.19, 0.0, 8.19)
  const SIDE: nat := 8191

  /** A projection that moves 512 pixels, two tiles, with every step. */
  function Stretched(): Projection {
    (lat: real, lon: real, level: nat) => Pixel(512000.0 * lon, 512000.0 * lat)
  }

  lemma StretchedTile(i: nat, j: nat)
    requires i < SIDE && j < SIDE
    ensures TileAt(Stretched(), Grid(0.0, STEP, i), Grid(0.0, STEP, j), 18) == Tile(2 * j, 2 * i)
  {
    StretchedCoordinate(i);
    StretchedCoordinate(j);
  }

  lemma StretchedCoordinate(i: nat)
    requires i < SIDE
    ensures TileCoordinate(512000.0 * Grid(0.0, STEP, i), 18) == 2 * i
  {
    MapSizes();
    assert 512000.0 * Grid(0.0, STEP, i) == (512 * i) as real;
    assert ((512 * i) as real).Floor == 512 * i;
  }

  /** A line of the scan: every second tile of a row. */
  lemma LineTiles(i: nat)
    requires i < SIDE
    ensures var line := ScanLine(Stretched(), Grid(0.0, STEP, i), 0.0, 8.19, STEP, 18);
            |line| == SIDE && forall j: nat :: j < SIDE ==> line[j] == Tile(2 * j, 2 * i)
  {
    hide TileAt, ScanLine;
    var line := ScanLine(Stretched(), Grid(0.0, STEP, i), 0.0, 8.19, STEP, 18);
    LineIsGrid(Stretched(), Grid(0.0, STEP, i), 0.0, 8.19, STEP, 18, SIDE);
    LineIsGrid(Stretched(), Grid(0.0, STEP, i), 0.0, 8.19, STEP, 18, SIDE - 1);
    forall j: nat | j < SIDE
      ensures j < |line| && line[j] == Tile(2 * j, 2 * i)
    {
      LineIsGrid(Stretched(), Grid(0.0, STEP, i), 0.0, 8.19, STEP, 18, j);
      StretchedTile(i, j);
    }
  }

  /** All tiles are even ones from row `2 * i` on. */
  predicate EvenFrom(ts: seq<Tile>, i: nat) {
    forall k :: 0 <= k < |ts| ==> ts[k].x % 2 == 0 && ts[k].y % 2 == 0 && ts[k].y >= 2 * i
  }

  /** From the `i`-th line on the scan sees even tiles only, each of them once. */
  lemma {:induction false} LinesTiles(i: nat)
    requires i <= SIDE
    ensures var ts := Scan(Stretched(), Grid(0.0, STEP, i), AREA, STEP, 18);
            |ts| == (SIDE - i) * SIDE && NoDup(ts) && EvenFrom(ts, i)
    decreases SIDE - i
  {
    hide ScanLine;
    if i < SIDE {
      LineTiles(i);
      LinesTiles(i + 1);
      GridNext(0.0, STEP, i);
      var line := ScanLine(Stretched(), Grid(0.0, STEP, i), 0.0, 8.19, STEP, 18);
      var rest := Scan(Stretched(), Grid(0.0, STEP, i + 1), AREA, STEP, 18);
      assert Scan(Stretched(), Grid(0.0, STEP, i), AREA, STEP, 18) == line + rest;
    }
  }

  lemma AreaRounded()
    ensures Rounded(AREA) == AREA
  {
  }

  /** The keys of even tiles end in 0, and different tiles have different keys. */
  lemma EvenKeys(ts: seq<Tile>, level: nat)
    requires NoDup(ts) && EvenFrom(ts, 0) && ValidTiles(ts, level) && 0 < level
    ensures var keys := TileKeys(ts, level);
            NoDup(keys) && forall i :: 0 <= i < |keys| ==> LastZero(keys[i], level)
  {
    var keys := TileKeys(ts, level);
    forall i, j | 0 <= i < j < |keys|
      ensures keys[i] != keys[j]
    {
      TileOfKey(ts[i], level);
      TileOfKey(ts[j], level);
    }
  }

  /** What the scan of the area at level 18 yields. */
  lemma AreaKeys() returns (samples: seq<Tile>)
    ensures samples == Scanned(Stretched(), AREA, STEP, 18) && |samples| == SIDE * SIDE && ValidTiles(samples, 18)
    ensures Sampled(samples, 18) == TileKeys(samples, 18) && NoDup(TileKeys(samples, 18))
    ensures forall i :: 0 <= i < |TileKeys(samples, 18)| ==> LastZero(TileKeys(samples, 18)[i], 18)
  {
    hide Scan, TileKeys, Rounded;
    AreaRounded();
    samples := Scanned(Stretched(), AREA, STEP, 18);
    LinesTiles(0);
    EvenKeys(samples, 18);
    DedupNoDup(TileKeys(samples, 18));
  }

  /**
   The merged keys of the area do not fit by far, and their figure, negative after its
   wrap-around, says that they do.
   */
  lemma AreaMissesBudget() returns (samples: seq<Tile>)
    ensures samples == Scanned(Stretched(), AREA, STEP, 18) && |samples| == SIDE * SIDE && ValidTiles(samples, 18)
    ensures TrueFigure(SampledMerged(samples, 18)) == 39 * SIDE * SIDE + 176
    ensures Figure(SampledMerged(samples, 18)) < 0
    ensures !ShortArea(samples, 18)
  {
    hide Scanned, TileKeys, Sampled, Merged, ShortArea, Weight, NoDup, Accumulate;
    samples := AreaKeys();
    var keys := Sampled(samples, 18);
    MergedOnlySorted(keys, 18);
    WeightOfLength(keys, 18);
    FigureOfPermutation(Merged(keys, 18), keys);
    FigureWraps(Merged(keys, 18));
    SameMembers(Merged(keys, 18), keys);
    LongAreaCompiles(samples, 18);
  }

  lemma LongAreaCompiles(samples: seq<Tile>, level: nat)
    requires ValidTiles(samples, level) && |SampledMerged(samples, level)| >= 4
    ensures !ShortArea(samples, level)
  {
    hide Merged;
    if c :| Shows(c, samples, level) && ReadsPastEnd(c) {
      ShowsIsCanonical(c, samples, level);
      RangeDistinct(samples, level);
      MergedIsTheCanonical(Sampled(samples, level), level, c);
    }
  }

  /** A filter compiled for the area at level 18 is printed uncut, and longer than any filter should be. */
  method BudgetMissed() returns (filter: string)
    ensures |filter| >= 99820
  {
    hide Acceptable, FilterText, Scanned, ShortArea, Figure, SampledMerged;
    ghost var samples := AreaMissesBudget();
    var q := new QuadKeyTS(Stretched(), NoFile);
    q.SetLevelOfDetail(18);
    NoAnswer(AREA);
    var answer, _ := q.GetQuadKeyFilter(AREA, true);
    filter := answer.text;
    ghost var keys :| Acceptable(keys, samples, 18) && filter == FilterText(keys);
    TooLongText(keys, samples);
  }

  lemma TooLongText(keys: seq<QuadKey>, samples: seq<Tile>)
    requires Acceptable(keys, samples, 18) && samples != [] && ValidTiles(samples, 18)
    requires TrueFigure(SampledMerged(samples, 18)) >= 0x8000_0000
    ensures |FilterText(keys)| >= 99820
  {
    var t := samples[0];
    assert t in samples && ValidTile(t, 18);
    assert Covers(keys, TileKey(t, 18));
  }
}
