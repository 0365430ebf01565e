# S-LDM: a verified model of the vehicle database and its codecs

S-LDM keeps a live map of the vehicles around a road-side server. It subscribes to an AMQP broker with a
filter made of quadkeys, decodes the messages it receives, stores one entry per vehicle, and contacts a
maneuvering service when a vehicle signals a turn. This project models the hand-written logic of that
program in Dafny and proves what it keeps, what it computes, and where it does not do what its own comments
say.

| files | what they model |
|---|---|
| `QuadKeyWords`, `Sorting`, `QuadKeyUnify`, `QuadKeyMerge`, `QuadKeyDedup`, `QuadKeyTiles`, `QuadKeyScan`, `QuadKeyBudget`, `QuadKeyText`, `QuadKeyTS`, `QuadKeyVast`, `QuadKeyStale` | the quadkey filter compiler: scanning an area, tiles to keys, duplicates, merging of siblings, cutting to a budget, printing and caching |
| `JsonValue`, `JsonUtf8`, `JsonText`, `JsonErrors`, `JsonSyntax`, `JsonParser`, `JsonStrings`, `JsonGaps`, `JsonNumbers`, `JsonGrammar`, `JsonAccepts`, `JsonFailures`, `JsonRoundTrip`, `JsonMulti`, `JsonOrder` | the JSON printer and parser, the grammar they are measured by, what the error messages say, and the comparison operators |
| `PathWindow`, `PathHistory` | the path-history ring buffer and its iterator |
| `BitBytes`, `BitString`, `BitStream`, `BitUper`, `BitFormat`, `BitCodec` | BIT STRING: canonical form, order, packed encoding and decoding, and the layout of the encoding |
| `LdmFlat`, `LdmMap`, `LdmRuns` | the two-level vehicle map and the single map it stands for |
| `AgeCheck`, `Ingest` | what is done with a received message |
| `TriggerProtocol`, `TriggerSafety` | trigger calls and REST threads, interleaved step by step |
| `MachineWords`, `Reals`, `Sequences`, `Occurrence` | 64-bit words, powers of two, rounding, and sequences without repetitions or inside others |

Run `dafny verify dfyconfig.toml` in this directory.

## What is proved

**Quadkey filter.** A key stands for all words it is a prefix of. For distinct keys of one length the merge gives a
canonical list (no key is a prefix of another, no four siblings are left, no key is longer than the level) with the
same meaning; a canonical list is determined by its meaning and is the smallest list with it, so the merged list is
the one ordered canonical list with the meaning of the input, and the merge throws exactly when that list is short and
ends in siblings. Each pass keeps lexicographic order and prefix-freeness, and `m_levelOfDetail` passes are enough.
The budget loop terminates, never loses coverage, never invents a key that does not extend to an input key, ends below
its bound by no more than one key too much, cuts only the longest keys, and never takes its `l<1` exit. Tiles and
words are in bijection, prefixes are coarser tiles, and every scanned tile is accepted by the filter that comes out.
That is said of the printed text as well, split at its connectives and matched with its wildcards. The scan sees the
tiles of all positions of the rounded area exactly when on both axes neighbouring scanned positions are at most one
tile apart and the upper end is in a scanned tile; the same is said of any area inside it, the one that was asked for
among them. Along the longitude the first condition always holds, and the second one at levels 17 and 18. Asking twice
gives the identical text from the cache; what a cached filter accepts of another question is stated exactly.

**JSON.** `parse` accepts a text exactly when it is one of the grammar, a tree of tokens with white space and, if they
are allowed, comments between them, at most 200 levels deep, and returns what the tree means; on any other text its message is true of the text. For every value whose
doubles are printed as numbers that read back, `parse(dump(v))` with either strategy therefore consumes all of the
text and returns an equal value exactly when the nesting is at most 200 deep, and otherwise fails with the depth
error. `parse_multi` returns a list of values exactly on texts of the grammar that follow each other with such gaps
around them. Every byte string survives. The strings that are accepted are exactly the sequences of bytes,
two-character escapes and `\u` escapes, with surrogate pairs put together and lone surrogates left as they are. Every
parsed object is a proper map, which holds under each key what the last entry with it means, and nothing else.
`operator<` is a strict order, lexicographic in strings, arrays and objects, whose incomparability is `operator==`.

**Path history.** Over any run a position is taken exactly when nothing is stored, or it is far enough from the point
it is compared with, or less far with a heading that has turned enough, the short way round. Iterating returns the
last accepted points, newest first, each once. The bookkeeping of distance and oldest index is kept exactly by those
inserts that do not overwrite the oldest point. With sensible limits that happens in a run from construction exactly
when the ring is filled for the first time before the limit is reached. Over any run, whatever the distance at the
start, the stored distance is the one walked behind the dropped points but for a drift that is stated exactly.

**BIT STRING.** Compaction strips the trailing zeros, comparison is the order of the zero-extended bits, and decoding
an encoding gives a string that compares equal, exactly when its length field has at most 16 bits or its length is
outside the range. What stands at every position of an encoding is stated bit by bit, extension bit, length fields and
content.

**Vehicle database and ingest.** What any sequence of operations does is stated, and it agrees with one map exactly
when no station with an identifier above 16 bits is removed. The cleaner goes by the true age exactly when no entry
from the future is within the limit and judged to be beyond it. The age check is right exactly for times close enough
together. Over any run of messages and cleanings the stored generation time of a station is the latest one since it
came in, and never goes back, exactly when old messages are discarded (with the age check and a log file) or none
comes that is older than what is stored. Without a log file, which is the default, it can go back. Exactly when a
message tries a trigger is stated on its fields and the options.

**Trigger protocol.** In every interleaving no station has two request loops, no client is used after it is deleted,
and a client is deleted only after the call that made it has released the mutex. Every client goes back to a call
whose lights asked for it, and every such call by a caller that is outside takes it to the mutex.

## Where the code and its description differ

The model follows the code.

- `src/QuadKeyTS.cpp:369` compares with `size()-4`, which is unsigned. With one to three keys that end in
  partial siblings, `at()` throws. `UnifyQuadkeys2` returns `OutOfRange` then, exactly when the merged list has that shape;
  `Merged` is the list the intended guard `i+3 < size()` would give. `CompileKeys` says the same of the scanned area.
  The vector moved from in line 390 is taken to be empty.
- `src/QuadKeyTS.cpp:519-528` accumulates in a 32-bit `int`. The text is within the bound exactly when the
  first figure is below 2^31; `BudgetMissed` compiles a filter for which it is not.
- `src/QuadKeyTS.cpp:258-259` says that no portion of the area is lost. At levels 14 to 16 the step does not divide a
  hundredth of a degree, and behind the last scanned longitude a column of tiles can be left out (`LastColumnLost`);
  `src/main.cpp:455` sets level 16.
- `src/QuadKeyTS.cpp:47` compares the bounds of the cache file up to 0.0001 degrees (`src/utils.cpp:124-126`) and the
  level not at all. `StaleLevel` and `StaleBounds` print filters that do not accept what is asked for.
- `json11/json11.cpp:589-642` reads integers of ten characters and more as doubles. The value read back is
  equal to the one written, not identical, and equal for any rounding that `strtod` and the conversion of integers share.
- `src/PHpoints.cpp:82` takes `size-1` where the last slot is meant; lines 25-59 and 167-174 do not set the
  stored distance, which is a constructor argument of the model; lines 110-119 do not move the oldest index when
  the ring is full; line 150 announces no next point when exactly one is left. The comment in the header about the remove
  policy says that the distance stays at least the limit; the loop goes on until it is below.
- `src/LDMmap.cpp:92` erases by the whole identifier. Identifiers from 2^16 on stay, the
  cardinality goes down, and two removals leave a database that accepts nothing.
- `src/AMQPclient.cpp:515` discards an old message only when a log file is in use, and none is by default
  (`options/options.c:467`); `GoesBack` is a run in which the stored time goes back. A message without a
  timestamp stores the largest number as its timestamp, and every later message of the station then counts as older:
  with a log file the entry stays as it is.
- `decoder-module/asn1/src/per_support.c:21` reads length fields of at most 16 bits; the encoder writes up to
  31. `decoder-module/asn1/src/BIT_STRING.c:406` does not reset the unused bits of a structure that is used again.
- `src/ManeuveringServiceRESTclient.cpp:258` goes on when the thread cannot be created. The station then
  stays on the list for good; `LeakReached` is such a run.

## Model

| member | source | states |
|---|---|---|
| QuadKeyWords.CanonicalUnique | src/QuadKeyTS.cpp:342-405 | two prefix-free lists without complete sibling quadruples that accept the same words have the same keys |
| QuadKeyWords.CanonicalSmallest | src/QuadKeyTS.cpp:342-405 | no list of keys of any lengths says the same as a canonical one with fewer keys |
| QuadKeyWords.FullHasPrefix | src/QuadKeyTS.cpp:366-386 | a key all of whose words are accepted, by a list without complete quadruples, has a prefix on the list |
| Sorting.SortSorts | src/QuadKeyTS.cpp:350-351 | sorting by a total preorder keeps the keys and orders them |
| QuadKeyUnify.SiblingsAdjacent | src/QuadKeyTS.cpp:366-386 | in an ordered prefix-free list consecutive siblings stand next to each other |
| QuadKeyUnify.PassKeepsAntichain | src/QuadKeyTS.cpp:366-388 | a pass keeps the list ordered and prefix-free |
| QuadKeyUnify.PassKeepsCoverage | src/QuadKeyTS.cpp:366-388 | a pass accepts the same words of at least the level |
| QuadKeyUnify.PassMergesQuad | src/QuadKeyTS.cpp:369-383 | every complete quadruple is replaced by its parent, wherever it stands |
| QuadKeyUnify.NoMergeNoQuad | src/QuadKeyTS.cpp:390-392 | a pass that changes nothing leaves no complete quadruple |
| QuadKeyUnify.PassLiftsQuads | src/QuadKeyTS.cpp:353-396 | quadruples left after a pass are one digit shorter |
| QuadKeyUnify.RoundsCanonical | src/QuadKeyTS.cpp:353-396 | as many passes as the level make a sorted list canonical |
| QuadKeyUnify.RoundsKeepCoverage | src/QuadKeyTS.cpp:353-396 | all passes together keep the meaning |
| QuadKeyUnify.AntichainDetermined | src/QuadKeyTS.cpp:350-396 | the order leaves one list for a set of keys |
| QuadKeyMerge.MergePass | src/QuadKeyTS.cpp:363-388 | the loop of one pass computes the pass, says whether it merged, and throws exactly for a short list that ends in siblings |
| QuadKeyMerge.MergePasses | src/QuadKeyTS.cpp:353-396 | the loop over passes with its early exit computes all passes, or throws exactly when a pass finds nothing to merge in a short list that ends in siblings |
| QuadKeyMerge.UnifyQuadkeys2 | src/QuadKeyTS.cpp:342-405 | for all keys that the passes can read: sorted by length, same meaning; for distinct keys of one length canonical, and it throws exactly when the one ordered canonical list with the meaning of the input has one to three keys ending in siblings |
| QuadKeyMerge.LongKeysReadable | src/QuadKeyTS.cpp:353-372 | keys of at least as many digits as there are passes never get empty under them |
| QuadKeyMerge.ReadsPastEndMeans | src/QuadKeyTS.cpp:369-372 | the lists that make it throw are those of one to three keys that end with the first one, two or three children of a tile |
| QuadKeyMerge.MergedKeepsMeaning | src/QuadKeyTS.cpp:342-405 | repeated keys and keys of different lengths keep their meaning as well |
| QuadKeyMerge.MergedIsTheCanonical | src/QuadKeyTS.cpp:342-405 | a list is ordered, canonical and means what the input means exactly when it is the merged one |
| QuadKeyMerge.MergedCanonical | src/QuadKeyTS.cpp:342-405 | the merged list is canonical and accepts what the input accepts |
| QuadKeyMerge.MergedDependsOnlyOnMeaning | src/QuadKeyTS.cpp:342-405 | two inputs that accept the same words are merged to the same list |
| QuadKeyMerge.MergedSmallest | src/QuadKeyTS.cpp:342-405 | the merged list is a smallest one with the meaning of the input |
| QuadKeyMerge.SingleTileReadsPastEnd | src/QuadKeyTS.cpp:369-372 | an area of one tile whose key ends in 0 makes the merge throw |
| QuadKeyDedup.RemoveDuplicates | src/QuadKeyTS.cpp:320-329 | the erasing loop, with `i--` wrapping at 0, terminates and removes exactly the repeated keys |
| QuadKeyDedup.FirstOtherCopy | src/QuadKeyTS.cpp:321-323 | the inner search finds another copy of a key exactly when there is one |
| QuadKeyDedup.DedupSelectsFirstOccurrences | src/QuadKeyTS.cpp:320-329 | what is left are the first occurrences, all of them, in their order |
| QuadKeyDedup.DedupErase | src/QuadKeyTS.cpp:548-557 | erasing a later copy does not change what is left in the end |
| QuadKeyTiles.TileToQuadKey | src/QuadKeyTS.cpp:228-241 | the digit loop computes the key of a tile, from which the tile can be read |
| QuadKeyTiles.DigitOfBits | src/QuadKeyTS.cpp:229-239 | a digit counts one for the x bit and two for the y bit |
| QuadKeyTiles.KeyDigits | src/QuadKeyTS.cpp:228-241 | digit by digit: one for the bit of its weight in the column, two for the one in the row |
| QuadKeyTiles.TileOfKey | src/QuadKeyTS.cpp:228-241 | the key determines the tile |
| QuadKeyTiles.KeyOfTile | src/QuadKeyTS.cpp:228-241 | every word is the key of a tile |
| QuadKeyTiles.KeyPrefix | src/QuadKeyTS.cpp:282-329 | the first digits of a key are the key of the tile that contains it at that level |
| QuadKeyTiles.KeyIsSquare | src/QuadKeyTS.cpp:89-97 | a key accepts exactly the tiles of its square |
| QuadKeyTiles.SiblingsTileParent | src/QuadKeyTS.cpp:366-386 | the four siblings of a merge are the quarters of their parent tile |
| QuadKeyTiles.PixelToTile | src/QuadKeyTS.cpp:223-226 | clipped pixels divide to tiles of the level |
| QuadKeyScan.TileOfPixel | src/QuadKeyTS.cpp:221-226 | a tile is 256 pixels wide, and what is outside the map belongs to the tiles at its edge |
| QuadKeyScan.RoundedContains | src/QuadKeyTS.cpp:262-265 | the four bounds are rounded outwards to whole hundredths of a degree, by less than a hundredth |
| QuadKeyScan.ScannedIsGrid | src/QuadKeyTS.cpp:269-298 | the scan looks at the tiles of its grid positions, and at no others |
| QuadKeyScan.AxisCovered | src/QuadKeyTS.cpp:269-298 | along an axis the tiles of all values between two are scanned exactly when those of both ends are and no step in between leaves out a tile |
| QuadKeyScan.WholeCovered | src/QuadKeyTS.cpp:262-298 | the whole axis is covered exactly when neighbouring scanned values are at most one tile apart and the upper end is in a scanned tile |
| QuadKeyScan.SparseMisses | src/QuadKeyTS.cpp:269-298 | where a step is two tiles long or longer, the tile of some value in it is left out |
| QuadKeyScan.AreaScanned | src/QuadKeyTS.cpp:262-298 | the tiles of all positions of an area inside the rounded one are scanned exactly when both axes are covered between its bounds |
| QuadKeyScan.ScanComplete | src/QuadKeyTS.cpp:258-298 | the tiles of all positions of the rounded area are scanned exactly when both axes are dense and their upper ends are in scanned tiles |
| QuadKeyScan.ColumnsDense | src/QuadKeyTS.cpp:190-206 | at every level the step that goes with it leaves out no column between the first and the last scanned longitude |
| QuadKeyScan.ColumnsComplete | src/QuadKeyTS.cpp:190-206 | all columns of the rounded area are scanned exactly when the last one is, and always with the steps of levels 17 and 18 |
| QuadKeyScan.LastColumnLost | src/QuadKeyTS.cpp:258-271 | at levels 14, 15 and 16 there is an area whose upper longitude is in a column that is never scanned |
| QuadKeyBudget.FigureWraps | src/QuadKeyTS.cpp:519-528 | the accumulated figure is the true one wrapped to 32 bits |
| QuadKeyBudget.ShortKeysFew | src/QuadKeyTS.cpp:528-559 | there are at most 1365 distinct keys of up to five digits |
| QuadKeyBudget.ShortKeysFit | src/QuadKeyTS.cpp:528-559 | distinct keys of up to five digits are within the budget |
| QuadKeyBudget.ShrinkOne | src/QuadKeyTS.cpp:529-542 | a round cuts the first of the longest keys, or finds that there is none |
| QuadKeyBudget.ShrinkAtCoarsens | src/QuadKeyTS.cpp:530-557 | cutting a key and removing the copy loses no coverage and adds only keys that prefix an old one |
| QuadKeyBudget.ShrinkAtWeight | src/QuadKeyTS.cpp:530-557 | cutting makes the text shorter, and for distinct keys by no more than one key |
| QuadKeyBudget.CoarserAcceptsMore | src/QuadKeyTS.cpp:506-510 | a coarser list accepts everything the finer one does |
| QuadKeyTS.CutOnce | src/QuadKeyTS.cpp:528-558 | one round decreases the measure, keeps keys distinct, and coarsens |
| QuadKeyTS.CheckDim | src/QuadKeyTS.cpp:511-573 | terminates with coarser keys, unchanged if they fit before; only the longest keys have been cut, down to some number of digits: shorter ones stay, longer ones are gone, new ones are one digit shorter at most; below the bound for keys no longer than the level, and else below it or with nothing left to cut; of distinct keys no more is cut than one key too much, and the true length is below the bound exactly when the first figure was below 2^31 |
| QuadKeyTS.TooLongHasLongKey | src/QuadKeyTS.cpp:543-546 | over the budget the length never drops under six, so the exit on l<1 is dead |
| QuadKeyTS.QuadKeyRange | src/QuadKeyTS.cpp:249-340 | the two loops of the scan give the keys of the scanned tiles, each once, all of the level's length |
| QuadKeyTS.RangeAcceptsSamples | src/QuadKeyTS.cpp:249-340 | before merging exactly the scanned tiles are accepted |
| QuadKeyTS.AllSamplesAccepted | src/QuadKeyTS.cpp:56-77 | after merging and cutting every scanned tile is accepted, and no other if nothing was cut |
| QuadKeyTS.ShowsIsCanonical | src/QuadKeyTS.cpp:56-77 | an ordered list that cannot be merged shows exactly the scanned tiles exactly when it is the canonical list of their keys |
| QuadKeyText.PrintFilter | src/QuadKeyTS.cpp:88-97 | the insertions build the disjunction of `LIKE 'key%'` clauses, and what it selects are the words with one of the keys as a prefix |
| QuadKeyText.TextSelects | src/QuadKeyTS.cpp:88-97 | split at its connectives, with each term read as the column, `LIKE` and a quoted pattern in which `%` stands for any string, the text selects a word exactly when one of the keys is a prefix of it |
| QuadKeyText.FilterLength | src/QuadKeyTS.cpp:519-528 | the figure of the budget is the length of the text and 180 |
| QuadKeyTS.MissThenHit | src/QuadKeyTS.cpp:36-49 | what a miss writes answers the same question again exactly when at least one key came out |
| QuadKeyTS.AnswersNearby | src/QuadKeyTS.cpp:36-49 | a file answers exactly when it holds keys and all four bounds are less than a ten-thousandth of a degree away, and the digits that are written stay within that |
| QuadKeyTS.CompileKeys | src/QuadKeyTS.cpp:60-77 | the whole pipeline: throws exactly for areas whose one ordered canonical list is short and ends in siblings; else all scanned tiles are accepted, canonical and exact if nothing had to be cut, and the text is below 99820 characters exactly when the figure did not wrap |
| QuadKeyVast.AreaMissesBudget | src/QuadKeyTS.cpp:519-528 | bounds, a step and a projection for which the scan at level 18 yields keys whose figure wraps around below the bound |
| QuadKeyVast.BudgetMissed | src/QuadKeyTS.cpp:14-118 | the filter for that area is printed uncut and too long |
| QuadKeyTS.PositionsAccepted | src/QuadKeyTS.cpp:56-77 | the filter accepts what is sent from every position of an area between whose bounds both axes are covered |
| QuadKeyTS.QuadKeyTS.SetLevelOfDetail | src/QuadKeyTS.cpp:178-211 | levels are clamped to 14..18, and each has its step of the scan |
| QuadKeyTS.QuadKeyTS.GetQuadKeyFilter | src/QuadKeyTS.cpp:14-118 | the text selects the quadkeys of all scanned tiles, and no others unless it was cut, read as a text; a cached answer is printed as it stands, selects what its keys accept, and is the filter of the question it was compiled for; a file that is too short or holds no numbers throws; a miss compiles, prints, and caches if the file can be written; a thrown exception leaves a file without keys |
| QuadKeyTS.QuadKeyTS.GetTwice | src/QuadKeyTS.cpp:14-118 | after a filter with at least one key the same question gets the identical text, from the file |
| QuadKeyStale.HitAccepts | src/QuadKeyTS.cpp:47-49 | a filter compiled for one question, and not cut, is one for another question exactly when its tiles are among the old ones, or with all their parts |
| QuadKeyStale.FinerStaysAccepted | src/QuadKeyTS.cpp:47-49 | any cached filter, cut or not, accepts the tiles of a finer level inside those it was compiled for |
| QuadKeyStale.SameQuestion | src/QuadKeyTS.cpp:47-49 | questions with the same level, step and rounded bounds have the same filters |
| QuadKeyStale.StaleLevel | src/QuadKeyTS.cpp:47-49 | after a change of the level the keys of the old one are printed, which do not accept the tile that is asked for |
| QuadKeyStale.StaleBounds | src/QuadKeyTS.cpp:47-49 | bounds within the tolerance of the old ones get a filter that does not accept one of their rows |
| JsonValue.AssignKeepsOrder | json11/json11.cpp:704-704 | assigning to a key keeps the members in ascending order of distinct keys |
| JsonValue.AssignHolds | json11/json11.cpp:704-704 | after assigning to a key the map holds the value under it, and under every other key what it held |
| JsonValue.StringOrder | json11/json11.cpp:167-169 | byte strings are totally ordered |
| JsonUtf8.DecodeEncode | json11/json11.cpp:471-490 | the bytes stand for the code point they were made from |
| JsonUtf8.Utf8Injective | json11/json11.cpp:471-490 | different code points have different bytes |
| JsonUtf8.WellFormedIffScalar | json11/json11.cpp:471-490 | the bytes are well-formed UTF-8 exactly for code points that are not surrogates |
| JsonUtf8.CombineSplit | json11/json11.cpp:548-553 | a surrogate pair is put together to the code point it was made from |
| JsonUtf8.SurrogateBits | json11/json11.cpp:548-553 | the two halves of a pair carry ten bits each |
| JsonText.DumpString | json11/json11.cpp:83-118 | the loop appends the quoted and escaped string |
| JsonText.PieceLooks | json11/json11.cpp:83-118 | byte for byte: which characters are escaped, and how |
| JsonText.Dump | json11/json11.cpp:146-148 | a value is appended as its text |
| JsonText.DumpItems | json11/json11.cpp:120-130 | the loop appends the items with commas between them |
| JsonText.DumpMembers | json11/json11.cpp:132-144 | the loop appends keys, colons and values in the order of the map |
| JsonText.DumpLooks | json11/json11.cpp:53-148 | an array and an object as they are printed, character by character |
| JsonParser.JsonParser.Fail | json11/json11.cpp:381-387 | a parse that has failed keeps its first message |
| JsonParser.JsonParser.ConsumeWhitespace | json11/json11.cpp:393-396 | the cursor moves to the next character that is no white space and stays in the text |
| JsonParser.JsonParser.ConsumeComment | json11/json11.cpp:402-434 | a line or block comment is skipped, or the parse fails |
| JsonParser.JsonParser.ConsumeGarbage | json11/json11.cpp:440-452 | white space and comments are skipped; the loop terminates |
| JsonParser.JsonParser.GetNextToken | json11/json11.cpp:458-465 | the next character that is no white space or comment, or the end-of-input error |
| JsonParser.JsonParser.EncodeUtf8 | json11/json11.cpp:471-490 | the UTF-8 bytes of a code point are appended, none for a negative one |
| JsonParser.JsonParser.ParseString | json11/json11.cpp:496-583 | the string up to its closing quote, with escapes and surrogate pairs resolved, or the error |
| JsonParser.JsonParser.ParseNumber | json11/json11.cpp:589-642 | the number at the cursor, an integer up to nine characters and the rounded double beyond, or the error |
| JsonParser.JsonParser.ParseExpected | json11/json11.cpp:645-653 | the cursor moves over the expected word, or the parse fails |
| JsonParser.JsonParser.ParseJson | json11/json11.cpp:660-742 | recursion terminates, the cursor stays in the text, a success consumes at least a character, and the result or the first error is that of the grammar |
| JsonParser.JsonParser.ParseObject | json11/json11.cpp:686-717 | the loop over members gives the object or the first error |
| JsonParser.JsonParser.ParseArray | json11/json11.cpp:719-739 | the loop over items gives the array or the first error |
| JsonParser.Parse | json11/json11.cpp:748-760 | one value and nothing behind it, or null and the first message, which is true of the text |
| JsonParser.ParseMulti | json11/json11.cpp:763-782 | the values, the stop position and the message of a sequence of values |
| JsonSyntax.Characters | json11/json11.cpp:393-396 | white space, digits, signs and exponent marks by their character codes |
| JsonSyntax.EscapeLetters | json11/json11.cpp:567-580 | the eight two-character escapes and their bytes by character codes |
| JsonSyntax.HexDigits | json11/json11.cpp:536-542 | the digits of a `\u` escape, in either case, count up to fifteen |
| JsonStrings.StringReads | json11/json11.cpp:83-118 | every byte string survives: what was dumped is read, wherever it stands |
| JsonStrings.PieceReads | json11/json11.cpp:85-116 | each step of the printer's loop, control bytes and U+2028 included, is read back as the bytes it consumed |
| JsonStrings.UnitsRead | json11/json11.cpp:496-583 | bytes, two-character escapes and `\u` escapes in any mix and with digits of either case are read; pairs of surrogates are put together, and a lone one gives its three bytes |
| JsonStrings.StringsAreUnits | json11/json11.cpp:496-583 | a string is accepted exactly when it is such a sequence with a closing quote |
| JsonStrings.EscapesRead | json11/json11.cpp:519-555 | any Unicode text written in escapes and surrogate pairs is read as its UTF-8 form |
| JsonGaps.GapReads | json11/json11.cpp:393-452 | white space with comments in it is skipped up to the token behind it |
| JsonGaps.FindGap | json11/json11.cpp:393-452 | what is skipped is white space with comments in it, and those only if they are allowed |
| JsonNumbers.NumberReads | json11/json11.cpp:589-642 | every number of the grammar is read with its value, an integer of up to nine characters as one and anything else as the nearest double |
| JsonNumbers.FindNumber | json11/json11.cpp:589-642 | whatever is read as a number is one of the grammar, and is read with its value |
| JsonNumbers.IntTextNumber | json11/json11.cpp:67-77 | every dumped integer is a number, worth the integer |
| JsonNumbers.DecimalMeans | json11/json11.cpp:589-642 | digits count in tens by their character codes, and each step of the exponent is a factor of ten |
| JsonGrammar.ItemsRead | json11/json11.cpp:719-739 | the items of an array are read with what stands between them, exactly when they are not too deep |
| JsonGrammar.EntriesRead | json11/json11.cpp:686-717 | the members of an object are read, and the last of those with the same key counts |
| JsonGrammar.ObjectMeans | json11/json11.cpp:686-717 | an object means a map exactly when its keys ascend and it holds, under each key, what the last entry with that key means, and nothing else |
| JsonGrammar.TreeReads | json11/json11.cpp:660-742 | the text of a tree is read as what it means wherever it stands, or fails with the depth error |
| JsonAccepts.FindTree | json11/json11.cpp:660-742 | whatever is read as a value is the text of a tree |
| JsonAccepts.AcceptsGrammar | json11/json11.cpp:748-760 | parse succeeds with a value exactly on the texts of the grammar that mean it and are at most 200 levels deep |
| JsonFailures.ErrorTold | json11/json11.cpp:381-760 | whatever the text, the message of a failing parse is true of it: what it names stands where a token, a string, a number or a comment was looked for, behind brackets, keys and values that are there; and the depth error is given only behind more than 200 opening brackets |
| JsonRoundTrip.TreeOf | json11/json11.cpp:53-148 | what is dumped is the text of a tree that means the value |
| JsonRoundTrip.ValueReads | json11/json11.cpp:660-742 | a dumped value is read back at any nesting level, or fails with the depth error |
| JsonRoundTrip.RoundTrip | json11/json11.cpp:748-760 | parse after dump consumes all and gives the value back exactly when it is at most 200 deep, doubles included if they are printed as numbers that read back |
| JsonMulti.MultiAccepts | json11/json11.cpp:763-782 | values without an error and with the stop position at the end are returned exactly on texts of values of the grammar that mean them, with gaps around them |
| JsonMulti.FindSections | json11/json11.cpp:763-782 | whatever is read without an error are values of the grammar with gaps behind them |
| JsonMulti.MultiFailure | json11/json11.cpp:763-782 | after a failure the values of the grammar in front of it are returned with one more for what failed, null or an empty string, the stop position is behind them, and the message is true of the text |
| JsonMulti.MultiRoundTrip | json11/json11.cpp:763-782 | dumped values with white space between them are returned exactly, with the stop position at the end |
| JsonMulti.ValueProper | json11/json11.cpp:660-742 | every parsed object has ascending, distinct keys at every level |
| JsonOrder.Trichotomy | json11/json11.cpp:318-334 | of two values one is less, or the other is, or they are equal, and never two of these |
| JsonOrder.NotGreaterTransitive | json11/json11.cpp:327-334 | the order is transitive through type tags, arrays and sorted objects |
| JsonOrder.StrictOrder | json11/json11.cpp:165-202 | a strict order, an equivalence, and each respects the other |
| JsonOrder.OrderOfTypes | json11/json11.cpp:165-202 | null, numbers, booleans, strings, arrays and objects in this order, and numbers by their doubles |
| JsonOrder.LexicographicOrder | json11/json11.cpp:165-202 | strings, arrays and objects are less exactly when, at the first difference, they end or have the lesser element, key or value |
| JsonOrder.NormEqual | json11/json11.cpp:179-202 | numbers read back are equal to those written, integers read as doubles among them, however doubles are rounded |
| JsonOrder.RoundTripEqual | json11/json11.cpp:748-760 | parse after dump gives an equal value under `operator==`, exactly when it is at most 200 deep |
| PathHistory.PathHistory.constructor | src/PHpoints.cpp:43-59 | an empty ring of ceil(limit/min) slots, whose bookkeeping is right exactly when the unset distance is zero |
| PathHistory.PathHistory.Insert | src/PHpoints.cpp:76-122 | a position is taken exactly when there is none before it, or it is at least the greater distance from the one compared with, or at least the smaller one with a heading turned by the limit or more, where the turn is the least of all `a - b + 360 k`; the taken one, with its position, heading and distance, is the newest; the bookkeeping stays right exactly when the oldest point is not overwritten |
| PathHistory.PathHistory.Compare | src/PHpoints.cpp:80-91 | the distance from the point compared with, and whether the position is taken |
| PathHistory.PathHistory.InsertAllDecided | src/PHpoints.cpp:76-122 | over any run every position, with the point it was compared with, was taken or skipped as distances and turn demand, and the points taken are those of the taken positions in their order |
| PathHistory.AngDiffLeast | src/PHpoints.cpp:12-23 | the angle is the least of all turns exactly for headings at most 540 degrees apart |
| PathHistory.PathHistory.MakeRoom | src/PHpoints.cpp:93-105 | both remove policies drop the points they say |
| PathHistory.PathHistory.ComparedWithNewest | src/PHpoints.cpp:82-82 | the point compared with is the newest exactly when the next slot is not the first or the ring is full |
| PathHistory.WrongPointCompared | src/PHpoints.cpp:82-82 | three points far apart in a ring of three make the next one be compared with the second |
| PathHistory.PathHistory.OverwritesAtFilling | src/PHpoints.cpp:80-119 | while the bookkeeping is right, a point goes over the oldest one exactly at the end of a first filling short of the limit |
| PathHistory.PathHistory.InsertAll | src/PHpoints.cpp:76-122 | over any run of inserts the bookkeeping stays right, unless the run goes past a first filling short of the limit; it is wrong right after that |
| PathHistory.PathHistory.InsertAllSingle | src/PHpoints.cpp:76-122 | in a ring for one point the bookkeeping is right exactly up to the second point, or with the policy that drops one point |
| PathHistory.FreshRun | src/PHpoints.cpp:43-122 | the same for any run from construction, with the stored distance starting at zero |
| PathHistory.PathHistory.InsertAllCounted | src/PHpoints.cpp:76-122 | over any run the stored distance is the one walked behind the dropped points, off by what they were miscounted by; without an overwritten point, by what it was off at the start |
| PathHistory.FreshRunCounted | src/PHpoints.cpp:25-122 | the same from construction, with any stored distance at the start |
| PathHistory.OverwriteReached | src/PHpoints.cpp:110-119 | two points one metre apart reach a state in which the next one goes over the oldest |
| PathHistory.PathHistory.Clear | src/PHpoints.cpp:167-174 | nothing is live afterwards; the bookkeeping is right exactly when the stored distance was zero |
| PathHistory.PathHistory.SwitchRemoveOnlyOne | src/PHpoints.cpp:65-74 | the policy is switched and nothing else changes |
| PathHistory.PathHistory.Iterate | src/PHpoints.cpp:124-165 | hands out the next older point, and the one after it except for the last; across inserts a point that is still live is handed out correctly |
| PathHistory.PathHistory.Collect | src/JSONserver.cpp:235-239 | iterating to the end gives the live points, newest first, each once, without the newest unless all are wanted |
| PathWindow.StoreKeeps | src/PHpoints.cpp:114-119 | the ring holds the last accepted points across any number of wraps |
| PathWindow.EvictManyKeepsMost | src/PHpoints.cpp:100-104 | the default policy keeps the most newest points whose distance is below the limit |
| PathWindow.EvictMakesRoom | src/PHpoints.cpp:93-105 | whatever the bookkeeping: how many points each policy drops, and what that leaves of size, oldest index and distance |
| PathWindow.StoreAccounts | src/PHpoints.cpp:80-119 | storing keeps the bookkeeping right exactly when the oldest point is not overwritten |
| PathWindow.OverwriteOnlyWithFirst | src/PHpoints.cpp:80-119 | that can only happen while the very first point is live |
| PathWindow.FillingKept | src/PHpoints.cpp:80-119 | in a first filling no point is dropped exactly as long as the distance is under the limit |
| PathWindow.InsertDrifts | src/PHpoints.cpp:80-119 | how the oldest index and the drift of the distance go on with each point, once points have been overwritten |
| PathWindow.ExcessIs | src/PHpoints.cpp:80-119 | the stored distance exceeds the one walked over the live points by the drift and the distances of the overwritten points |
| PathWindow.MiscountWhen | src/PHpoints.cpp:95-104 | a dropped point is counted right as long as its slot has not been used again; in a full ring, after one overwritten point, the newest one is subtracted in its place |
| PathWindow.OldestReachesNext | src/PHpoints.cpp:97-119 | oldest index plus size is the next index modulo the capacity |
| BitBytes.UnusedIsLowest | decoder-module/asn1/src/BIT_STRING.c:231-236 | `v & -v` and three masks find the number of trailing zero bits |
| BitBytes.ByteOrder | decoder-module/asn1/src/BIT_STRING.c:275-275 | bytes are ordered by the first bit in which they differ |
| BitString.Compactify | decoder-module/asn1/src/BIT_STRING.c:215-251 | the walk from the end gives the string without its trailing zero bits |
| BitString.CompactBits | decoder-module/asn1/src/BIT_STRING.c:212-251 | the compact form has the same bits and its last one is set |
| BitString.Compare | decoder-module/asn1/src/BIT_STRING.c:253-305 | the sign is the order of the zero-extended bits; zero exactly for strings equal up to trailing zeros |
| BitString.Trichotomy | decoder-module/asn1/src/BIT_STRING.c:263-305 | the order is total up to trailing zeros |
| BitString.PrecedesTransitive | decoder-module/asn1/src/BIT_STRING.c:263-305 | the order is transitive and does not see trailing zeros |
| BitString.CompactDetermined | decoder-module/asn1/src/BIT_STRING.c:283-290 | compact strings with the same bytes have the same unused bits, so that comparison never decides |
| BitStream.FewBitsRead | decoder-module/asn1/src/asn_bit_data.c:62-142 | a number that fits into its bits is read back |
| BitStream.PackBits | decoder-module/asn1/src/asn_bit_data.c:147-186 | reading many bits keeps them and adds zeros |
| BitUper.LengthFieldReads | decoder-module/asn1/src/per_support.c:13-44 | every length field is read back with what it covers |
| BitUper.FragmentsRead | decoder-module/asn1/src/BIT_STRING.c:521-537 | fragments of up to 64K are put together again, with the empty one behind whole fragments |
| BitUper.RootReads | decoder-module/asn1/src/BIT_STRING.c:483-514 | a string in the range is read back with the zeros that fill it up |
| BitUper.BitsRoundTrip | decoder-module/asn1/src/BIT_STRING.c:317-419 | what was encoded is decoded anywhere in a stream, exactly when the length field has at most 16 bits or the length is outside the range |
| BitUper.FragmentsCost | decoder-module/asn1/src/per_support.c:25-44 | a decoder that does not know the length field reads whole bytes of length for at most 64K bits each |
| BitUper.WideFieldMisread | decoder-module/asn1/src/per_support.c:20-25 | no string in the range is read back behind a length field of more than 16 bits |
| BitUper.EncodeFails | decoder-module/asn1/src/BIT_STRING.c:466-491 | encoding fails exactly for a string longer than a range without extension allows, and for length fields of more than 31 bits |
| BitUper.EmittedInRange | decoder-module/asn1/src/BIT_STRING.c:483-511 | the emitted length is in the range, and its offset fits into the field |
| BitFormat.FewBitsAt | decoder-module/asn1/src/asn_bit_data.c:192-252 | a field holds the binary digits of its number, the one of the greatest weight first |
| BitFormat.LengthFieldLayout | decoder-module/asn1/src/per_support.c:167-192 | bit by bit: a zero and seven digits, a one, a zero and fourteen digits, or two ones and the number of fragments, at most four |
| BitFormat.LengthFieldAccepted | decoder-module/asn1/src/per_support.c:27-43 | by its bits, which length fields are read: those three, with one to four fragments |
| BitFormat.LengthFieldValue | decoder-module/asn1/src/per_support.c:27-43 | what is read from each of them, and that only fragments have more behind them |
| BitFormat.ExtensionBit | decoder-module/asn1/src/BIT_STRING.c:466-481 | the extension bit says whether the length is outside the range |
| BitFormat.RootLayout | decoder-module/asn1/src/BIT_STRING.c:483-514 | the digits of the length less the lower bound, the bits, and zeros up to the lower bound, each at its position |
| BitFormat.OpenLayout | decoder-module/asn1/src/BIT_STRING.c:516-537 | outside the range the fragments follow the extension bit |
| BitFormat.FragmentsLayout | decoder-module/asn1/src/BIT_STRING.c:521-537 | the position of every bit of a string in fragments, and how long all of it is |
| BitFormat.FieldsLayout | decoder-module/asn1/src/BIT_STRING.c:521-537 | the position of every length field and what it counts, the one behind the last fragment included |
| BitCodec.PutZeros | decoder-module/asn1/src/BIT_STRING.c:498-511 | the loop in chunks of 128 appends all filling zeros |
| BitCodec.PutLength | decoder-module/asn1/src/per_support.c:167-192 | the length field, what it covers, and whether an empty one must follow |
| BitCodec.PutFragments | decoder-module/asn1/src/BIT_STRING.c:521-537 | the loop over the buffer writes all fragments |
| BitCodec.EncodeUper | decoder-module/asn1/src/BIT_STRING.c:421-540 | writes the encoding of the compact bits, or fails: exactly for unused bits that are impossible, a string too long for a range without extension, and a length field of more than 31 bits |
| BitCodec.GetFragments | decoder-module/asn1/src/BIT_STRING.c:386-416 | the loop appends the bytes of all fragments to the buffer |
| BitCodec.DecodeUper | decoder-module/asn1/src/BIT_STRING.c:317-419 | reads the value at a position, or asks for more; old unused bits stay when the length is a multiple of eight and not fixed |
| BitCodec.UnpackLength | decoder-module/asn1/src/BIT_STRING.c:406-406 | the decoded length is right exactly when there are unused bits or none were left behind |
| BitCodec.DeclaredBits | decoder-module/asn1/src/BIT_STRING.c:215-251 | the bits written are the declared ones exactly when the unused bits are zero |
| BitCodec.RoundTrip | decoder-module/asn1/src/BIT_STRING.c:317-540 | encoding and decoding gives the value and the position, whatever stands around in the stream, exactly when the length field has at most 16 bits or the length is outside the range; then it compares equal, with a length in the range |
| LdmFlat.AgeIsTrue | src/LDMmap.cpp:164-164 | the computed age is the true one exactly for entries that are not from the future |
| LdmFlat.CleanedByTrueAge | src/LDMmap.cpp:153-174 | the cleaner removes exactly the entries of a true age above the limit, exactly when no entry from the future has its true age within the limit and its computed one above |
| LdmFlat.NeverFull | src/LDMmap.cpp:37-39 | a database that counts its entries is never full |
| LdmFlat.InsertedEntries | src/LDMmap.cpp:44-68 | an insertion gives its station the new data at the end of the history it had, and leaves all others |
| LdmFlat.RemovedEntries | src/LDMmap.cpp:79-98 | a removal takes its station out and leaves all others |
| LdmMap.ComposeKeys | src/LDMmap.cpp:6-10 | the two keys put together are the low 32 bits of the identifier |
| LdmMap.FlatStore | src/LDMmap.cpp:44-68 | storing under the two keys changes the single map in one place |
| LdmMap.LdmMap.Insert | src/LDMmap.cpp:32-77 | inserts or updates the entry and its path history, with return code and count of the single map |
| LdmMap.LdmMap.Remove | src/LDMmap.cpp:79-98 | removes the entry exactly for identifiers below 2^16; beyond, only the count goes down |
| LdmMap.LdmMap.Lookup | src/LDMmap.cpp:100-118 | returns the entry of the single map, or not found exactly when there is none |
| LdmMap.LdmMap.RangeSelect | src/LDMmap.cpp:120-138 | appends each entry at a distance of at most the range exactly once, and no other |
| LdmMap.LdmMap.RangeSelectAround | src/LDMmap.cpp:140-151 | the same around the position of a station, or not found |
| LdmMap.LdmMap.DeleteOlderThanAndExecute | src/LDMmap.cpp:176-199 | removes exactly the entries that are too old, calling back once for each, and keeps the count |
| LdmMap.LdmMap.DeleteOlderThan | src/LDMmap.cpp:153-174 | removes exactly the entries that are too old and keeps the count |
| LdmMap.LdmMap.Clear | src/LDMmap.cpp:201-223 | empties the database and its count |
| LdmMap.RemoveTwice | src/LDMmap.cpp:79-98 | a station above 16 bits can be removed twice, and then nothing can be inserted |
| LdmRuns.Perform | src/LDMmap.cpp:32-223 | what each operation does to the contents and the count, with its result |
| LdmRuns.InsertMeans | src/LDMmap.cpp:32-77 | an insertion, entry by entry, with its count and return code, and that a full count leaves everything as it is |
| LdmRuns.RemoveMeans | src/LDMmap.cpp:79-98 | a removal takes out short identifiers only, counts down, around zero, for every one that is there, and says not found exactly for the others |
| LdmRuns.OthersMean | src/LDMmap.cpp:100-223 | what is found, what is cleaned and counted down, and that clearing leaves nothing |
| LdmRuns.Replay | src/LDMmap.cpp:32-223 | over any sequence of operations the contents, the count and all results are those of the steps |
| LdmRuns.StepIsOneMap | src/LDMmap.cpp:79-98 | an operation does what it does to one map exactly when it removes no station with a long identifier |
| LdmRuns.OneMapIffShort | src/LDMmap.cpp:32-223 | a run agrees with one map throughout, in contents, count and results, exactly when no station with a long identifier is removed while it is there |
| AgeCheck.CheckExact | src/AMQPclient.cpp:508-511 | exactly when the check tells the older message from the newer one, for times less than a round apart |
| AgeCheck.CheckRight | src/AMQPclient.cpp:482-519 | for messages less than five minutes apart the check is right |
| AgeCheck.MissingBlocks | src/AMQPclient.cpp:462-472 | after a message without a timestamp every later one counts as older |
| Ingest.MissingFreezes | src/AMQPclient.cpp:462-528 | an entry stored without a timestamp, while it stays, is left alone by later messages with one exactly when old messages are discarded |
| Ingest.ManageLowfreqContainer | src/AMQPclient.cpp:46-65 | the lights of the container, or those known already |
| Ingest.LightsRead | src/AMQPclient.cpp:435-460 | the lights: bit 4 or 5 from the drive direction, else those of the container, or those remembered without one |
| Ingest.TimestampRead | src/AMQPclient.cpp:462-472 | the timestamp of the header, or the signed property as 64 bits, or the largest number |
| Ingest.TypeRead | src/AMQPclient.cpp:422-433 | with the interoperability option a passenger car with a GeoNetworking header becomes type 100 |
| Ingest.OnMessage | src/AMQPclient.cpp:382-634 | area gate, age check, stored data and trigger gate, with the database before and after: a trigger is tried exactly when triggers are enabled, the lights are known, the position is inside the internal area or cross-border is set, and with the interoperability option the message is of a passenger car without a GeoNetworking header; what is triggered and stored has the position, station, time and lights of the message |
| Ingest.StoredTimestamp | src/AMQPclient.cpp:508-528 | the newer timestamp is kept with a log file, the last one without |
| Ingest.LightsRemembered | src/AMQPclient.cpp:56-64 | known lights stay known while messages come without the container |
| Ingest.InteropNeedsBareCam | src/AMQPclient.cpp:422-433 | with the interoperability option no message with a GeoNetworking header tries a trigger |
| Ingest.HandleAll | src/AMQPclient.cpp:382-634 | a run of messages and cleanings leaves what the steps of `After` give, messages outside the area skipped |
| Ingest.StoredHolds | src/AMQPclient.cpp:482-596 | whatever the options, what a run leaves in a station's entry: the later generation time if old messages are discarded, the last one if not |
| Ingest.RunKeepsLatest | src/AMQPclient.cpp:482-596 | over any such run a station's stored generation time is its latest one since it came in, and never goes back, exactly when old messages are discarded or none is older than what is stored |
| Ingest.GoesBack | src/AMQPclient.cpp:508-519 | without a log file two messages take the stored time back |
| TriggerSafety.StepKeeps | src/triggerManager.cpp:4-57 | every step of every caller and thread keeps the invariant |
| TriggerSafety.OneThreadPerStation | src/triggerManager.cpp:19-47 | no two request loops for a station, no duplicates on the list, and every unnotified station on it |
| TriggerSafety.NoUseAfterDelete | src/ManeuveringServiceRESTclient.cpp:41-89 | no step uses a client that is not on the heap |
| TriggerSafety.CallProceeds | src/triggerManager.cpp:4-19 | a call with bit 4 of the lights, or bit 5 with the left trigger on, on a configured manager takes its caller to the mutex; any other call changes nothing |
| TriggerSafety.ClientsAsked | src/triggerManager.cpp:4-47 | in every run each client and each station on the list goes back to such a call for that station, made by a caller that was outside |
| TriggerSafety.CallFindsStation | src/triggerManager.cpp:19-47 | by itself, a call for a station on the list gives the mutex back and changes nothing |
| TriggerSafety.CallStartsThread | src/triggerManager.cpp:19-47 | by itself, a call for any other station makes a client, lists the station, starts its thread and gives the mutex back |
| TriggerSafety.CallGivesUp | src/triggerManager.cpp:19-47 | a call that cannot allocate its client gives the mutex back and changes nothing |
| TriggerSafety.ThreadCleansUp | src/ManeuveringServiceRESTclient.cpp:41-89 | in every run, a thread that leaves its loop, by itself, takes its station off the list, and no other, and its client off the heap |
| TriggerSafety.FlagStaysSet | src/ManeuveringServiceRESTclient.cpp:252-262 | a run in which a thread that has left its loop is marked as running behind that, and stays marked |
| TriggerSafety.DeletedAfterSpawner | src/ManeuveringServiceRESTclient.cpp:81-89 | a client is deleted only after the call that made it has started the thread and released the mutex |
| TriggerSafety.ListIsExact | src/triggerManager.cpp:36-56 | while the mutex is free the list holds exactly the stations of threads that have not notified, and of those that could not be created |
| TriggerSafety.LeakBlocksStation | src/ManeuveringServiceRESTclient.cpp:258-262 | a station whose thread could not be created stays on the list for good |
| TriggerSafety.LeakReached | src/ManeuveringServiceRESTclient.cpp:258-262 | a run of one caller that gets there |
| TriggerSafety.MutexIsReleased | src/triggerManager.cpp:19-47 | whoever holds the mutex can go on and comes nearer to releasing it |
| TriggerSafety.ThreadNotStuck | src/ManeuveringServiceRESTclient.cpp:81-89 | a thread can go on or waits for a mutex somebody holds |

## Left out

- JsonRoundTrip.RoundTrip: that `%.17g` prints a finite double as a number that reads back is a hypothesis; infinities and NaN are not modelled.
- JsonNumbers.NumberReads: how a double is rounded is left open, and `strtod` and the conversion of integers are taken to round alike.
- JsonParser.JsonParser.ParseNumber: overflow of `strtod` to infinity is not modelled.
- BitStream.PackBits: the stream is a sequence of booleans, so the chunks of 24 bits, the output buffer and its flushing are not modelled.
- BitString.Compare: null pointers are not modelled; compaction reads through them before the branches that expect them.
- QuadKeyTS.QuadKeyTS.GetQuadKeyFilter: the projection from degrees to pixels is a parameter, positions and bounds are reals, written with six digits, and the cache file is a field instead of a file.
- QuadKeyMerge.UnifyQuadkeys2: an empty key, of which the source takes the last character, is excluded.
- QuadKeyScan.ScanComplete: whether the rows are dense and the last one is scanned depends on the Mercator projection of latitudes, which is not modelled.
- QuadKeyStale.HitAccepts: of filters that had to be cut only `FinerStaysAccepted` is said, because they accept more than what was asked for.
- PathHistory.PathHistory.Insert: the great-circle distance is a parameter, doubles are reals, and the vector, which is only reserved, is an array of its reserved size.
- PathHistory.PathHistory.Iterate: what is handed out of a point that is no longer live is whatever stands in its slot.
- LdmMap.LdmMap.DeleteOlderThanAndExecute: the conversion of the age to double is exact, and the order of entries is arbitrary.
- LdmMap.LdmMap.Insert: of the path history only the data handed to it is recorded; mutexes and leaked path histories are not modelled.
- Ingest.OnMessage: the fields that are only copied (elevation, heading, speed, dimensions, source quadkey, message counters) and all logging are left out; the areas are parameters.
- Data races between clients of the database: it is modelled sequentially.
- TriggerSafety.MutexIsReleased: fairness of the scheduler is not modelled, so that a waiting caller gets the mutex in the end is not stated.
- Latitude and longitude to pixels, haversine, and angles: transcendental floating point.
- The first version of the key merge, `unifyQuadkeys`: unused.
- `printAllContents` and `executeOnAllContents`: one loop each, like the selection by range.
- AMQP, HTTP, timers, sockets and files: foreign libraries and I/O.
- Generated ASN.1 tables, XER and OER of BIT STRING, GeoNetworking headers, options, visualizer and user interface: nothing to prove, or not used by this program.
