# Geohash index and SSDB wire protocol

A Dafny model of the two cores of the PHP extension for SSDB, and proofs about them.

**The geohash index.** A position is quantised to a 2^step x 2^step grid, its two cell numbers are
interleaved with magic masks, and the step-26 code is stored as a score. A radius search picks a step,
encodes the centre, walks to the eight neighbouring cells with arithmetic on the interleaved bits, drops
the neighbours its bounding box cannot reach, asks the server for one score interval per remaining cell,
filters the points by distance, sorts them and cuts the list. The question the proofs answer is when this
agrees with testing every stored member:

- for the Mercator type, exactly when the radius is below the map's half width
  (`SearchLimits.MercatorSearchExactly`, `Coverage.DiscFoundExactly`);
- for WGS84, the type `ssdb_geo.c` uses, the nine cells hold the bounding box exactly when it stays within one
  cell of the centre's on both axes (`Coverage.BoxFoundExactly`);
- for WGS84 along a meridian, for every centre exactly when neither the first fine row north of the scanned rows
  nor the first one south of them is within the radius (`MeridianSearch.MeridianSearchExactly`);
- over all centres of all meridians, exactly for radii of at most one finest row, 0.28 m, and from half of
  MERCATOR_MAX, 10018 km, to below it (`MeridianRadii.RadiusCompleteExactly`). At every radius between, the WGS84
  search is incomplete for some centre: the step compares the radius with the half width of the Mercator world,
  20038 km, while the WGS84 rows divide the 18920 km between the map's southern and northern edges. At 4 km every
  centre on the longitude of a fine column, where alone members can be on its meridian, and at least two rows away
  from those edges has an incomplete search (`MeridianRadii.FourKilometresMiss`);
- for WGS84 along the equator, for every centre and radii up to a quarter of the circumference exactly when neither
  the first fine column east of the scanned columns nor the first one west of them is within the radius
  (`Equator.EquatorSearchExactly`); over all centres of the equator, for all radii, exactly for those of at most a
  quarter of the circumference and at most the width of a column of their step (`EquatorRadii.RadiusCompleteExactly`):
  4 km is complete, 4.89 km is not;
- for WGS84 around any centre, a member within a radius of up to a quarter of the circumference is scanned when its
  cell is the centre's or one of the eight next to it, across the date line too (`Sphere.AdjacentScanned`);
- for both types and any distances, exactly when the scores within the radius are all scanned or none is, a score
  being scanned when its cell is kept or it is the first one after a kept cell (`SearchLimits.AlwaysRefinesExactly`,
  `SearchLimits.ScannedExactly`).

Completeness is about runs that get through. The filter loop follows null links when it unlinks an end of its list,
so a search around a stored member can be undefined while another member is there to be found
(`UndefinedRuns.UndefinedSearch`); the incomplete runs above are all defined ones, on sets in the server's order.

A complete search with a limit returns the nearest members, but can return fewer than the limit and the members
allow: the inclusive upper bound of an interval holds one score more than its cell, so that a member can be listed
twice and take up two places. `NearestMembers.HitsExactly` and `AlwaysDueExactly` say exactly when,
`ListedTwice.FewerHits` gives a store and a query.

**The SSDB protocol.** Commands and replies are lists of length-prefixed blocks. `ssdb_sock_read` is a
byte-driven state machine over a growable buffer and arbitrarily cut reads; on top of it sit the linked block
list, key prefixes, maps, and reconnecting. `Wire.Parse` is the meaning of the reader on the whole byte
stream; the imperative reader is proved to compute it for every way the stream cuts the bytes, and
round trip, truncation, the meaning of the status words and of malformed length lines are proved about it.

The geo search is also modelled as the C code runs it: commands over the wire to a server that answers zscan,
replies read by the state machine, points collected in doubly linked lists that are joined and filtered in
place (`GeoMembers.Members`), sorted and returned (`NearestMembers.GeoNeighbours`). These methods are proved to
compute the search the index theorems are about, so that a run that gets through a complete search returns entries
of the stored members within the radius, none nearer left out, in the number given by how often each is listed.

## Files

| file | models |
|---|---|
| Arith, Words | powers, shifts and quotients; 64-bit words as numbers |
| Morton, Geohash | geo/geohash.c |
| GeoRadius, Coverage | geo/geohash_helper.c: step, bounding box, nine cells, and what they cover |
| GeoIndex, GeoSearch, SearchLimits | cells as score intervals; index search against naive search |
| MeridianSearch, MeridianRadii, Sphere, Equator, EquatorRadii | the WGS84 search: along meridians, around any centre, along the equator |
| CStrings, Decimal, Wire | C strings, decimal text, the wire format and the meaning of the reader |
| Links, Responses, SockRead, Reconnect | the block list, the reader, the connection |
| Commands, Replies | command encoders, prefixes, list and map replies |
| GeoList, GeoMembers, UndefinedRuns | ssdb_geo.c: lists, scanning, filtering |
| Ranking, HitCount, NearestMembers, ListedTwice | ssdb_geo.c: sorting, cutting, and what is returned of the stored members |

## Reading the model

- Bytes are characters; a PHP array is a sequence of key/value pairs, with no key twice where it is a map.
- Doubles are exact reals. `(uint32_t)` casts, the `uint8_t` step counter and `ilato + 1` keep their widths;
  hashes are `bv64`.
- A coordinate equal to the range's maximum encodes to cell number 2^step. `InWorld` and `Inside` are the half-open
  ranges, `OnMap` and `Has` the closed ones.
- The WGS84 longitude spread and the haversine distance are parameters (`Trig`). The spread may be NaN, as asin
  gives it outside its domain; the box then has no bounds to the east and west. `Meridional` says that the distance
  along a meridian is the arc; `Equatorial`, that on the equator the spread is the distance up to a quarter turn and
  goes back from there, and that the haversine distance is the shorter arc between the longitudes; `Spherical`, that a
  position within a radius, at most a quarter of the circumference, is no further north or south than the radius and
  no further east or west than the spread. The real functions meet these with `M_PI` for pi, and
  `EquatorRadii.LawsTogether` shows that they do not contradict each other. `SpreadsOut`, needed for
  `Coverage.Wgs84Misses` alone, says that the spread of a radius is not negative.
- A radius of `MERCATOR_MAX` or more gives step 26, like radius 0.
- The filter loop follows `c->prev` and `c->next` even at the ends of the list, and `l->num` is read for a null
  list. The methods return `defined`, and their contracts say exactly when the C code has a defined result
  (`GeoSearch.RunDefined`).
- Joining to an empty list leaves its tail unset: `GeoList.List.Join` says when the result is a list.
- The comparator orders Mercator hits by squared distance, as the code's distance test stores it.
- The network is a script: answers to the end-of-file test, outcomes of connection attempts, bytes that arrive.

## Model

| member | source | states |
|---|---|---|
| Morton.DeinterleaveInterleave | geo/geohash.c:75-133 | Deinterleaving the interleaving of two 32-bit numbers gives both back. |
| Morton.InterleaveDeinterleave | geo/geohash.c:75-133 | Interleaving the two halves of any deinterleaved 64-bit word gives the word back: a two-sided inverse. |
| Morton.InterleaveBits | geo/geohash.c:75-100 | The mask code meets its bitwise meaning: bit 2k is bit k of x, bit 2k+1 is bit k of y. |
| Morton.InterleaveVal | geo/geohash.c:75-100 | As a number the interleaved word is the Morton code of the two numbers. |
| Morton.CodeOfRowCol | geo/geohash.c:105-133 | Every word is the Morton code of its deinterleaved row and column. |
| Morton.MortonPrefix | geo/geohash.c:151-163 | Dropping 2k bits of a code is the code of both cell numbers without their k low bits. |
| Morton.MortonInjective | geo/geohash.c:75-100 | Different cells have different codes. |
| Morton.MortonBound | geo/geohash.c:151-163 | A code is below 4^n exactly when both cell numbers are below 2^n. |
| Morton.RowBefore | ssdb_geo.c:104-106 | The cell whose code comes just before another's lies one row south for an odd row, one row north for an even row and odd column, and otherwise one row south or further north. |
| Morton.MovedXModular | geo/geohash.c:262-280 | For steps 1 to 32 and every word, moving in x changes the longitude number by one modulo 2^step and leaves latitude alone, wrap-arounds and 64-bit overflow included. |
| Morton.MovedYModular | geo/geohash.c:282-298 | The same for moving in y. |
| Morton.MovesCommute | geo/geohash.c:262-298 | Moves in x and y commute. |
| Morton.MoveXUndone | geo/geohash.c:262-280 | Moving back undoes a move in x exactly when the longitude number is on the grid. |
| Morton.MoveYUndone | geo/geohash.c:282-298 | Moving back undoes a move in y exactly when the latitude number is on the grid. |
| Geohash.HashCell.MoveX | geo/geohash.c:262-280 | geohash_move_x in place: the new bits are the x move of the old ones. |
| Geohash.HashCell.MoveY | geo/geohash.c:282-298 | geohash_move_y in place. |
| Geohash.GetNeighbors | geo/geohash.c:300-333 | Each of the eight fields is the hash moved in its own direction. |
| Geohash.ShiftedCell | geo/geohash.c:300-333 | A neighbour is the cell (dx, dy) away on the 2^step torus. |
| Geohash.OppositeUndone | geo/geohash.c:300-333 | Going to a neighbour and then the opposite way returns to the hash. |
| Geohash.NineDistinct | geo/geohash.c:300-333 | The centre and its neighbours are nine different hashes exactly when step >= 2. |
| Geohash.EastIsWest | geo/geohash.c:300-333 | At step 1 the east and the west neighbour are the same hash. |
| Geohash.IndexIsCell | geo/geohash.c:151-161 | A coordinate's fixed-point number is i exactly when it lies between the edges of cell i. |
| Geohash.IndexBounds | geo/geohash.c:146-161 | Numbers run from 0 to 2^step, and exactly the range's maximum gets 2^step. |
| Geohash.FixedPoint | geo/geohash.c:151-161 | The conversion of a coordinate in range is its cell number and fits 32 bits. |
| Geohash.Encode | geo/geohash.c:135-165 | When geohashEncode succeeds, what it writes then, and what it leaves in the hash when it fails; excluded is only what C leaves undefined once the checks pass. |
| Geohash.Decode | geo/geohash.c:185-215 | When geohashDecode succeeds, the four edges it writes, and that it writes nothing otherwise. |
| Geohash.EncodeDecode | geo/geohash.c:135-215 | The decoded cell holds the position, its minimum corner is off by less than a side, and encoding the corner gives the same code. |
| Geohash.CellShift | geo/geohash.c:151-161 | A cell number at a coarser step is the fine one shifted right. |
| Geohash.EncodeShift | geo/geohash.c:151-163 | The code at step s is the step-26 code shifted right by 2(26 - s). |
| GeoRadius.EstimateStepsByRadius | geo/geohash_helper.c:101-111 | The doubling loop ends, with the number of doublings modulo 256, 26 for 0 and for more than 26. |
| GeoRadius.DoublingsReach | geo/geohash_helper.c:101-111 | That many doublings bring a positive radius to MERCATOR_MAX. |
| GeoRadius.DoublingsLeast | geo/geohash_helper.c:101-111 | No smaller number of doublings does. |
| GeoRadius.StepExact | geo/geohash_helper.c:101-111 | The step is min(26, least k with r * 2^k >= MERCATOR_MAX) exactly when the counter's wrap does no harm. |
| GeoRadius.StepEdges | geo/geohash_helper.c:101-111 | In numbers: the radii from which on the step is 1, and 26 again; 26 for radius 0. |
| GeoRadius.CounterWrapped | geo/geohash_helper.c:101-111 | A radius doubled 257 times, for which the wrapped counter gives the coarsest step instead of the finest. |
| GeoRadius.DoublingsOfPower | geo/geohash_helper.c:101-111 | MERCATOR_MAX / 2^k is doubled exactly k times. |
| GeoRadius.StepReach | geo/geohash_helper.c:101-111 | For 0 < r < MERCATOR_MAX a Mercator cell of the step is wider than r, wrap or not. |
| GeoRadius.GetAreasByRadius | geo/geohash_helper.c:165-222 | Step, encoding, neighbours, decoding and pruning compose to the hash, area and kept neighbours. |
| GeoRadius.PruneNeighbors | geo/geohash_helper.c:195-221 | The in-place zeroing leaves exactly the neighbours on no pruned side. |
| GeoRadius.NaNPrunesNothing | geo/geohash_helper.c:153-217 | Where the bounding box's longitudes are NaN, no neighbour is pruned to the east or west. |
| GeoRadius.PrunedIsProduct | geo/geohash_helper.c:198-217 | A cell is among the nine hashes left exactly when its row is kept on one axis and its column on the other. |
| GeoRadius.CoveredIsProduct | geo/geohash_helper.c:195-221 | The scanned cells are a product of scanned rows and scanned columns, decided by the box. |
| GeoRadius.AxisNear | geo/geohash_helper.c:198-217 | A position of the box in the centre's row or the next one is never pruned. |
| GeoRadius.AxisFar | geo/geohash_helper.c:195-217 | A row two away is never scanned, wrap-around included. |
| GeoRadius.AxisCoverage | geo/geohash_helper.c:195-217 | An axis of the box is covered exactly when the box stays within one cell of the centre's. |
| GeoRadius.MissedAbove | geo/geohash_helper.c:195-217 | A box reaching further up holds a position that is not scanned. |
| GeoRadius.MissedBelow | geo/geohash_helper.c:195-217 | The same for a box reaching further down. |
| Coverage.BoxFoundExactly | geo/geohash_helper.c:165-222 | Every position of the bounding box has its cell scanned exactly when the box stays within one cell on both axes. |
| Coverage.SmallDisc | geo/geohash_helper.c:165-222 | Mercator, 0 <= r < MERCATOR_MAX: every position within r has its cell scanned. |
| Coverage.LargeDisc | geo/geohash_helper.c:101-111 | From MERCATOR_MAX on there is a position within r whose cell is not scanned. |
| Coverage.DiscFoundExactly | geo/geohash_helper.c:165-222 | Mercator, r >= 0: the whole disc is scanned exactly when r < MERCATOR_MAX. |
| Coverage.ReachesForAllCentres | geo/geohash_helper.c:195-217 | A half-width d stays within one cell of every centre exactly when d is at most a side, or step 1. |
| Coverage.Wgs84RowsExactly | geo/geohash_helper.c:138-222 | WGS84: the rows reach the bounding box of every centre exactly when its half-height is at most a row, or step 1. |
| Coverage.FourKilometres | geo/geohash_helper.c:101-163 | For 4000 m the step is 13 and the half-height exceeds a step-13 row. |
| Coverage.Wgs84Misses | geo/geohash_helper.c:165-222 | So some WGS84 centre's nine cells miss part of its 4 km box, for every spread that is not negative at that distance. |
| GeoIndex.AlignVal | geo/geohash_helper.c:236-240 | The aligned hash and the aligned next hash are the cell number and its successor times 4^(26 - step). |
| GeoIndex.CellInterval | geo/geohash_helper.c:236-240 | A score lies in a cell exactly when align(c) <= score < align(c + 1). |
| GeoIndex.ScanInterval | ssdb_geo.c:101-112 | The inclusive interval holds exactly the cell's scores and the one score after them. |
| GeoIndex.DecodeScore | ssdb_geo.c:8-19 | A score of any 64 bits decodes to the minimum corner of its step-26 cell. |
| GeoIndex.ScoreCells | ssdb_geo.c:8-19 | At every step the cell of the decoded position is the prefix of the score. |
| GeoIndex.SetThenGet | ssdb_geo.c:303-362 | geo_set then geo_get is off by less than a cell side, and storing the result stores the same score. |
| GeoIndex.ScoreOnGrid | ssdb_geo.c:313-319 | The stored score is below 2^52 exactly for positions off the map's upper edges. |
| GeoSearch.ScanAllHas | ssdb_geo.c:193-223 | Without a limit the joined list holds exactly the members whose score is in some scanned interval. |
| GeoSearch.QueryBoxes | ssdb_geo.c:196-211 | Every hash a search scans is zeroed or a cell of its step, so its interval is well defined. |
| GeoSearch.CentreIsMember | ssdb_geo.c:233-234 | The member left out is the centre's, names being compared with their length and up to a NUL. |
| GeoSearch.NaiveFinds | ssdb_geo.c:225-255 | Testing every member finds exactly the wanted ones: other members within the radius, at their decoded positions with their distances; Sphere.Wgs84Wanted and Sphere.MercatorWanted spell the test out. |
| GeoSearch.IndexedIsScanned | ssdb_geo.c:101-112 | A member whose position lies in a scanned cell has its score in that cell's interval. |
| GeoSearch.ScannedRefinesNaive | ssdb_geo.c:193-255 | If every member passing the test has its score in a scanned interval, index search and naive search find the same points. |
| GeoSearch.IndexRefinesNaive | ssdb_geo.c:193-255 | If every member passing the test lies in a scanned cell, index search and naive search find the same points. |
| GeoSearch.MercatorSearch | ssdb_geo.c:193-255 | Mercator, r < MERCATOR_MAX, any sorted set on the grid: the same points at the same distances. |
| GeoSearch.Wgs84Search | ssdb_geo.c:193-255 | WGS84: the same whenever the box contains the passing members and stays within one cell. |
| GeoSearch.KnownCompleteRefines | ssdb_geo.c:193-255 | Under either type's condition, known before the search, both searches find the same points. |
| GeoSearch.ListedTimes | ssdb_geo.c:206-223 | A member is listed once per scanned interval holding its score. |
| SearchLimits.ScannedRows | ssdb_geo.c:196-211 | Every scanned box lies in the centre's row or a row next to it on the torus. |
| SearchLimits.ScannedExactly | ssdb_geo.c:104-112 | In closed form: a score is scanned exactly when its cell is kept or it is the first score after a kept cell. |
| SearchLimits.OwnScanned | ssdb_geo.c:196-211 | A member at the centre's own position always has its score in a scanned interval. |
| SearchLimits.MissedMember | ssdb_geo.c:193-255 | With a scanned and an unscanned member that pass the test stored, in the server's order, the run is defined and misses the second. |
| SearchLimits.AlwaysRefinesExactly | ssdb_geo.c:193-255 | Both types, any distances: the defined runs all equal the naive search exactly when the scores within the radius are all scanned, or none is. |
| SearchLimits.LargeSearch | ssdb_geo.c:193-255 | From MERCATOR_MAX on a member can be stored that passes the distance test and is in no scanned interval. |
| SearchLimits.MercatorSearchExactly | ssdb_geo.c:193-255 | Mercator, r >= 0: the defined runs of a search all equal the naive search exactly when r < MERCATOR_MAX. |
| MeridianSearch.MeridianSearchExactly | ssdb_geo.c:193-255 | WGS84, every centre on a meridian with members: the defined runs all equal the naive search exactly when neither the first fine row north of the scanned rows nor the first south is within the radius. |
| MeridianSearch.HeldRow | ssdb_geo.c:104-112 | A box holds a score of its own row only, but for its one extra score. |
| MeridianSearch.NorthNotHeld | ssdb_geo.c:101-112 | No scanned interval holds the first fine row north. |
| MeridianSearch.SouthNotHeld | ssdb_geo.c:101-112 | Nor the first one south. |
| MeridianSearch.KeptScanned | ssdb_geo.c:193-255 | Where neither is within the radius, every member passing the test is in a scanned interval. |
| MeridianSearch.RowMissed | ssdb_geo.c:193-255 | A fine row within the radius that no interval holds makes a defined run incomplete. |
| MeridianRadii.RadiusCompleteRows | ssdb_geo.c:364-393 | WGS84: the searches of a radius are complete on all meridians exactly when half the bounding box is at most a row, or step 1. |
| MeridianRadii.TallRowsRadii | geo/geohash_helper.c:101-147 | In closed form: exactly for radii of at most a finest row, and from half of MERCATOR_MAX to below it. |
| MeridianRadii.FinestSize | geo/geohash_helper.c:53-59 | A finest row is 0.2819276 m high. |
| MeridianRadii.RadiusCompleteExactly | ssdb_geo.c:364-393 | WGS84: the searches of a radius are complete on all meridians exactly for those radii. |
| MeridianRadii.EveryCentreMisses | ssdb_geo.c:364-393 | Where half the bounding box is one and a half rows, with two fine rows to spare, every centre two rows from the map's edges has an incomplete defined run. |
| MeridianRadii.FourKilometresMiss | ssdb_geo.c:364-393 | So it is for 4 km, for every such centre. |
| Sphere.Wgs84Wanted | geo/geohash_helper.c:243-262 | WGS84: a member is kept exactly when it is another one and the haversine distance between the centre and its decoded position, latitude first, is at most the radius; that distance is written to it. |
| Sphere.MercatorWanted | geo/geohash_helper.c:264-271 | Mercator: exactly when the sum of the squared differences is at most the squared radius; that sum is written. |
| Sphere.KeptColumns | geo/geohash_helper.c:138-217 | Any WGS84 centre: the kept columns are its own, and the next ones whose near edge is within asin(sin(distance) / cos(latr)) of it or where that is NaN. |
| Sphere.ColumnReached | geo/geohash_helper.c:195-217 | A longitude within the half-width, in the centre's column or the next, is kept, across the date line too. |
| Sphere.AdjacentScanned | ssdb_geo.c:193-255 | Any WGS84 centre, radius up to a quarter of the circumference: a wanted member in the centre's cell or one of the eight next to it is scanned. |
| Sphere.NextColumnExactly | geo/geohash_helper.c:138-217 | A member of the centre's row in the next column east or west, off its first fine column, is scanned exactly when the near edge of that column is within the spread. |
| Equator.EquatorWanted | geo/geohash_helper.c:243-262 | On the equator: a member is wanted exactly when it is another one and the shorter arc between the longitudes, in metres, is at most the radius; that arc is the distance returned. |
| Equator.CellBefore | ssdb_geo.c:104-106 | The cell whose code comes just before that of a cell in the equator's row lies in the column before and to the north, or in the row before. |
| Equator.HeldKept | ssdb_geo.c:104-112 | A fine column of the equator in a scanned interval lies in a kept column, or its score is the extra score of another kept cell. |
| Equator.EastNotHeld | ssdb_geo.c:101-112 | No scanned interval holds the first fine column east. |
| Equator.WestNotHeld | ssdb_geo.c:101-112 | Nor the first one west. |
| Equator.WantedScanned | ssdb_geo.c:193-255 | Where neither is within the radius, every wanted member of the equator is in a scanned interval. |
| Equator.ColumnMissed | ssdb_geo.c:193-255 | A fine column within the radius that no interval holds makes a defined run incomplete. |
| Equator.EquatorSearchExactly | ssdb_geo.c:193-255 | WGS84, every centre on the equator, radius up to a quarter of the circumference: the defined runs all equal the naive search exactly when neither the first fine column east of the scanned columns nor the first west is within the radius. |
| EquatorRadii.RadiusCompleteExactly | ssdb_geo.c:364-393 | WGS84, every radius: the searches of the equator are complete from all its centres exactly when the radius is at most a quarter of the circumference and at most the width of a column. |
| EquatorRadii.ColumnsOfThirteen | ssdb_geo.c:364-393 | 4 km is complete there, 4.89 km is not: the columns of step 13 are 4887.87 m wide. |
| EquatorRadii.LawsTogether | geo/geohash_helper.c:138-262 | The three laws taken for the trigonometric functions can be met together. |
| CStrings.StrNEqIsPrefix | ssdb_library.c:834-836 | Against a NUL-free prefix, strncmp over its length is the prefix test. |
| CStrings.StrCmpZero | ssdb_geo.c:94-95 | strcmp is zero exactly for equal C strings. |
| CStrings.StrCmpTransitive | ssdb_geo.c:94-95 | strcmp orders transitively. |
| CStrings.StrCmpOrder | ssdb_geo.c:94-95 | strcmp is negative exactly when the first C string comes before the second by bytes. |
| CStrings.NameBeforeExactly | ssdb_geo.c:94-95 | That is, exactly when it is a proper prefix of it or has the smaller byte where they first differ. |
| Decimal.AtoiDec | ssdb_library.c:525 | atoi reads back every printed number, whatever non-digit follows. |
| Decimal.AtoiText | ssdb_library.c:525 | Blanks before a number do not count, a minus negates it, and it ends at the first other character. |
| Decimal.AtoiNothing | ssdb_library.c:525 | Without a digit there the number is 0. |
| Decimal.AtoiBeforeNul | ssdb_library.c:525-528 | atoi on a zero-filled buffer sees only the bytes before the first NUL. |
| Wire.ParseBlock | ssdb_library.c:501-589 | A complete block is consumed whole and becomes the status or the next block. |
| Wire.ParseCutBlock | ssdb_library.c:507-583 | A block cut anywhere adds nothing. |
| Wire.ParseLongBlock | ssdb_library.c:525-535 | A longer block is never recorded. |
| Wire.RoundTrip | ssdb_library.c:478-600 | Reading any encoded status and blocks gives back exactly these and leaves the bytes after the message unread. |
| Wire.RoundTripExactly | ssdb_library.c:478-600 | A message is read back exactly when its blocks have fewer than 2^31 - 2 bytes, from which on the buffer's int capacity overflows. |
| Wire.MessageStatus | ssdb_library.c:569-579 | Of a message the status is ok, not found, error or fail exactly for the first block of that word, as a C string, and client error for every other; the other blocks are the blocks. |
| Wire.MalformedLine | ssdb_library.c:501-589 | What a length line behind whole blocks does, by the number atoi reads: below -1 or from 2^31 - 2 on the process dies, -1 ends the message, a block cut short or not closed by a newline is dropped and ends it, and any other line stands for its number. |
| Wire.FirstLine | ssdb_library.c:501-589 | The same before any block, where no response is left; an empty first line is the length 0. |
| Wire.OverlongLine | ssdb_library.c:511-515 | A length line that fills the buffer, 1024 bytes or the largest block, ends the message one byte later. |
| Wire.Truncation | ssdb_library.c:501-599 | On every prefix of a message: no response without the whole status block, otherwise the true status and exactly the whole blocks. |
| Wire.UnframeMessage | ssdb_library.c:230-262 | The blocks of every encoded command can be recovered from its text. |
| Wire.GetMessage | ssdb_library.c:230-262 | The bytes of one command, written out. |
| Responses.ResponseObj.constructor | ssdb_library.c:414-427 | A new response has the default status and no blocks. |
| Responses.ResponseObj.AddBlock | ssdb_library.c:444-476 | Appends one new node, keeping the chain, both ends and the count consistent. |
| SockRead.Reader.constructor | ssdb_library.c:483-499 | The start state satisfies the buffer invariant and means reading the whole stream. |
| SockRead.Reader.LengthStep | ssdb_library.c:502-546 | A pass in read steps 0 and 3 keeps the buffer invariant and the meaning of the bytes to come, or stops where the parse stops. |
| SockRead.Reader.TakeByte | ssdb_library.c:511-546 | The same for one byte: full line, end of message, end of line, or another digit. |
| SockRead.Reader.BeginPayload | ssdb_library.c:524-540 | A finished length line starts its payload, ends the read for -1, or is one the process dies of. |
| SockRead.Reader.StartPayload | ssdb_library.c:530-539 | The buffer grows to the announced size plus one, within an int, and fill mark plus rest equals it. |
| SockRead.Reader.ReadLength | ssdb_library.c:525 | atoi on the buffer is atoi on the current length line alone. |
| SockRead.Reader.PayloadStep | ssdb_library.c:548-589 | A pass in read step 1 keeps invariant and meaning for every chunk size. |
| SockRead.Reader.TakeChunk | ssdb_library.c:555-589 | The same for the chunk received. |
| SockRead.Reader.WholePayload | ssdb_library.c:561-588 | A payload without its newline ends the read; otherwise it is recorded and length mode starts again. |
| SockRead.Reader.Record | ssdb_library.c:565-583 | The first payload sets the status, every later one is appended as a block. |
| SockRead.Reader.ToLengthMode | ssdb_library.c:585-588 | Clearing restores the length-mode invariant: all bytes behind the fill mark are zero. |
| SockRead.Reader.Step | ssdb_library.c:501-590 | One pass of the loop keeps invariant and meaning and consumes bytes. |
| SockRead.ReadResponse | ssdb_library.c:483-599 | For every way the stream cuts the bytes, the result is the parse of the bytes, the rest stays unread, and the reader ends. |
| Reconnect.NeededAtMost | ssdb_library.c:370-400 | The attempts needed are at most the lost connections and refusals in the script. |
| Reconnect.RefusalsCount | ssdb_library.c:370-400 | Every refused attempt counts as one and asks for no check of the connection. |
| Reconnect.LossesCount | ssdb_library.c:370-400 | Without refusals one attempt more is needed than the connection is found lost at once again, and it is the last of these connections that is read. |
| Reconnect.CheckedWithout | ssdb_library.c:362-412 | Without authentication a check succeeds exactly when at most ten attempts are needed. |
| Reconnect.CheckedQuiet | ssdb_library.c:362-412 | With it, and the connection not lost again meanwhile, exactly when moreover the reply is accepted; what follows the reply is then still to come. |
| Reconnect.AcceptsExactly | ssdb_library.c:627-641 | A reply is accepted exactly when its word and its first block are "ok" as C strings. |
| Reconnect.AuthUnframes | ssdb_library.c:615-626 | The receiver takes what is written first on a new connection apart into "auth" and the password as a C string. |
| Reconnect.Sock.ConnectSocket | ssdb_library.c:122-193 | One attempt: a fresh stream and CONNECTED, or none. |
| Reconnect.Sock.Reestablish | ssdb_library.c:370-400 | The loop ends alive exactly when at most ten attempts are needed, makes the needed ones, or ten, and ends on the connection they lead to. |
| Reconnect.Sock.CheckEof | ssdb_library.c:362-412 | Ends for every script, and succeeds exactly when the script's fate is a connection, then with its bytes to come; the stream is the old one untouched, or a new one authenticated first. |
| Reconnect.Sock.ResendAuth | ssdb_library.c:615-641 | Succeeds exactly when the two checks on the way do and the reply is accepted; the authentication is then the first thing written. |
| Reconnect.Sock.SockWrite | ssdb_library.c:602-613 | Fails on a closed connection; otherwise succeeds exactly when the check does, with the command written last on a stream that is not null and was authenticated first if new. |
| Reconnect.Sock.SockRead | ssdb_library.c:478-600 | Succeeds exactly when the check does and the bytes then to come parse to a response; returns their parse and leaves the rest, on the old stream or a new one. |
| Commands.KeyPrefix | ssdb_library.c:211-228 | The key gets the prefix exactly when one is set. |
| Commands.CmdFormatByStr | ssdb_library.c:230-262 | The two-phase argument loop writes the message of all arguments. |
| Commands.CmdFormatByZval | ssdb_library.c:264-360 | Length 0 exactly for an empty array; otherwise the receiver recovers the command's blocks, whose contents the next three rows give, with the prefix only where it is to be filled in. |
| Commands.CommandShape | ssdb_library.c:278-290 | The command comes first, then the key unless it is empty, then the array. |
| Commands.PairBlocks | ssdb_library.c:299-328 | With the keys read, each element is two blocks in order: prefix and key, then the value, empty or not. |
| Commands.ValueBlocks | ssdb_library.c:329-345 | Otherwise the blocks are the non-empty values in order, each with the prefix. |
| Replies.MapResponse | ssdb_library.c:863-935 | The reply of the response read, which the next row characterises, for every prefix whose keys are read within their blocks. |
| Replies.MessageReplies | ssdb_library.c:822-935 | Of a message whose word is "ok" the list is made of all blocks and the map of the pairs, null for an odd number; for every other word both are null. |
| Replies.MapBlocks | ssdb_library.c:881-935 | The walk with prev links pairs each key block with the value block after it. |
| Replies.PutAt | ssdb_library.c:906-929 | A key that is there gets the new value in its place and nothing else changes; a new key is added at the end. |
| Replies.LastWins | ssdb_library.c:881-935 | Every element of a map has the value of the last pair with its key. |
| Replies.ListResponse | ssdb_library.c:822-861 | The same for lists: every block in order, for every prefix whose blocks are read within their bounds. |
| Replies.NoOverrun | ssdb_library.c:834-838 | Every block is read within its bounds when the prefix has no NUL, or when the block was written with it. |
| Replies.KeyOfPrefixed | ssdb_library.c:834-838 | Stripping undoes prefixing, and where nothing is stripped a key written without prefix comes back, up to its first NUL. |
| Replies.KeyWithout | ssdb_library.c:834-855 | With a NUL-free prefix, a block that does not begin with it comes back unchanged exactly when it has no NUL. |
| Replies.MapRoundTrip | ssdb_library.c:299-328 | With the prefix written and stripped, or none written and none stripped, a map read back is the same map exactly when no key contains a NUL. |
| Replies.MultiSetGet | ssdb_class.c:1047-1079 | What multi_set wrote, answered over the wire and read back with prefix filtering, is the original ordered map. |
| Replies.ListRoundTrip | ssdb_library.c:822-861 | The same for lists of keys. |
| Replies.ListUnfiltered | ssdb_library.c:846-855 | Without filter the list is the blocks exactly when none has a NUL. |
| Replies.KeysSentReadBack | ssdb_class.c:1060-1079 | The blocks a multi_get sends behind its header read back as its non-empty keys exactly when none has a NUL. |
| GeoList.List.constructor | ssdb_geo.c:21-34 | A new list is empty. |
| GeoList.List.AddTail | ssdb_geo.c:54-74 | Appends one new node and keeps the list consistent. |
| GeoList.List.Join | ssdb_geo.c:76-88 | Concatenates; the result is a list exactly when the first was not empty or the second was empty. |
| GeoList.List.Unlink | ssdb_geo.c:236-249 | Unlinking an inner node removes exactly it and keeps both chains. |
| GeoList.List.Destroy | ssdb_geo.c:36-52 | Every node is released once, in order. |
| GeoMembers.ServeZscan | ssdb_geo.c:118-130 | The server takes the zscan command apart and answers with the members in the inclusive interval. |
| GeoSearch.ZscanFirst | ssdb_geo.c:118-130 | The limit cuts off the end: where an element of the interval is missing, as many as the limit are given, all before it. |
| GeoMembers.PointsOfReply | ssdb_geo.c:159-182 | The pairs of a zscan reply decode to the points of the elements. |
| GeoMembers.ScoreSigned | ssdb_geo.c:159-182 | A score block with blanks or a sign before its number, and anything behind it, counts as the number's two's complement. |
| GeoMembers.PointsList | ssdb_geo.c:151-182 | The loop over the blocks builds the list of decoded points. |
| GeoMembers.AskBox | ssdb_geo.c:104-143 | Over the wire, a box's question is answered with exactly its scanned elements. |
| GeoMembers.BoxList | ssdb_geo.c:143-191 | Of any response: null for none, a bad status, an odd number of blocks or no points; otherwise the list of its points. |
| GeoMembers.MemberBox | ssdb_geo.c:101-191 | The points of a box as a list, null for none. |
| GeoMembers.FilterNode | ssdb_geo.c:229-253 | One pass: distance written, or the node removed; defined unless an end of the list is removed. |
| GeoMembers.FilterList | ssdb_geo.c:225-255 | Defined exactly when both ends are kept; then the list holds the kept points in order with their distances. |
| GeoMembers.AddBox | ssdb_geo.c:213-222 | A box's list becomes the list or is joined to it; contents concatenate. |
| GeoMembers.ScanBoxes | ssdb_geo.c:206-223 | The nine boxes give the joined points of all scanned intervals. |
| GeoMembers.Members | ssdb_geo.c:193-263 | Defined exactly when a point was scanned and both ends are kept; then the result is the search of the index theorems. |
| UndefinedRuns.FirstNotKept | ssdb_geo.c:225-255 | A search whose first box begins with a point that fails the test, as the centre member does, is undefined, whatever else is stored. |
| UndefinedRuns.LastNotKept | ssdb_geo.c:225-255 | So is one whose last box, the south-western one, ends with such a point. |
| UndefinedRuns.CentreFirst | ssdb_geo.c:225-255 | With the centre member first and another one stored at the centre's position, the search is undefined. |
| UndefinedRuns.UndefinedSearch | ssdb_geo.c:225-263 | A concrete store and query with a member within the radius and no defined run. |
| Ranking.TotalPreorder | ssdb_geo.c:90-99 | The comparator is total, antisymmetric in sign and transitive; zero exactly for equal distance and member. |
| Ranking.SortSorts | ssdb_geo.c:419 | The sort yields an ordered permutation. |
| Ranking.Qsort | ssdb_geo.c:419 | The array in place becomes an ordered permutation of itself. |
| Ranking.Copied | ssdb_geo.c:403-417 | The array holds the list's points in order. |
| Ranking.FirstOf | ssdb_geo.c:401-433 | The first limit points are returned, all of them for a limit of 0 or less. |
| Ranking.Neighbours | ssdb_geo.c:401-438 | Copy, sort and cut: the result is made of the first points, up to the limit, of some ordered permutation of the list. |
| Ranking.ReturnedHits | ssdb_geo.c:425-430 | Every hit returned carries the position and distance of a point whose member is its key. |
| Ranking.ReturnedInOrder | ssdb_geo.c:419-433 | Points of different names in order give entries nearest first, equally near ones by name. |
| Ranking.NothingNearerLeftOut | ssdb_geo.c:419-433 | Where the search is complete, no member left out of the result is nearer than one in it. |
| Ranking.ReturnedKeys | ssdb_geo.c:430 | The keys returned are the members of the points, each once. |
| Ranking.ReturnedAll | ssdb_geo.c:423-433 | Of k sorted points k entries are returned exactly when their members differ. |
| Ranking.WholeResult | ssdb_geo.c:401-433 | Where the search is complete, an unlimited result has exactly the members the naive search finds. |
| HitCount.SortedIsSpread | ssdb_geo.c:403-419 | The sorted array is the wanted points in order, each repeated as often as it is listed. |
| HitCount.EntriesCount | ssdb_geo.c:421-433 | The first places of it give one entry for each point they reach. |
| HitCount.ReachedExactly | ssdb_geo.c:401-433 | Never more than are due, the limit or all; as many exactly when there is no limit or those before the last one due take up fewer places than the limit. |
| HitCount.AlwaysDue | ssdb_geo.c:401-433 | As many as are due under every limit exactly when all but the last are listed once. |
| NearestMembers.ListingsTimes | ssdb_geo.c:206-255 | A wanted member of a sorted set is in the search result once per scanned interval holding its score. |
| NearestMembers.EntriesReturned | ssdb_geo.c:392-438 | The number of entries returned, from what is stored: the wanted members that the limit's places reach. |
| NearestMembers.HitsExactly | ssdb_geo.c:392-438 | It is the limit, or the number of wanted members, exactly when there is no limit or the members before the last one due are listed less often than the limit; it is never zero when there is a wanted member. |
| NearestMembers.AlwaysDueExactly | ssdb_geo.c:392-438 | It is so for every limit exactly when no wanted member but the last in order has its score in two scanned intervals. |
| NearestMembers.NearestFound | ssdb_geo.c:392-438 | Where the search agrees with the naive one, the result says of the stored members: each entry is a wanted one's name with its decoded latitude and longitude and its distance, none nearer is left out, none at all without a limit, and for different names the entries come nearest first, in the number above. |
| NearestMembers.GeoNeighbours | ssdb_geo.c:392-438 | The whole search from the store on: defined exactly when its run is, made of the first points of the sorted search, and with all of the above where the search is complete. |
| ListedTwice.NorthCornerTwice | ssdb_geo.c:104-112 | From a centre in an even row, a member at the corner of the kept cell to the north is listed twice. |
| ListedTwice.FewerHits | ssdb_geo.c:392-438 | A concrete store and query: two members within 4 km, a limit of two, a defined and complete run, and one entry returned. |

## Left out

- Floating-point rounding in encoding, decoding and distances: doubles are exact reals.
- Haversine distance, the longitude spread and the Mercator projection: the first two are parameters, the last is not part of this model.
- GeoSearch.Wgs84Search: holds under conditions on the box, because completeness is false in general; the exact conditions are those of Coverage.BoxFoundExactly and, along meridians, MeridianSearch.MeridianSearchExactly.
- MeridianSearch.MeridianSearchExactly: only members on the centre's meridian, where the haversine distance is an arc of latitude; off the meridian it depends on the trigonometric parameters.
- Equator.EquatorSearchExactly: only members of the equator, and radii up to a quarter of the circumference, from which on the box gets narrower again; EquatorRadii.RadiusCompleteExactly has all radii.
- Sphere.AdjacentScanned: says nothing of members further away than the next cell; for those see the meridians and the equator.
- Sphere.NextColumnExactly: steps 1 and 26, where the two next columns are the same or the extra score may hold any column.
- Geohash.Encode: once its checks pass, steps 31 and 32 and a range of no width are excluded, because the int shift and the division are undefined there.
- SearchLimits.MercatorSearchExactly: centres on the map's upper edges are excluded from the equivalence; GeoSearch.MercatorSearch covers them below MERCATOR_MAX.
- Negative radii in the completeness theorems; the methods cover them.
- The key prefix in the geo search: the code prefixes the key again for each of the nine boxes and uses the freed key; the model has no prefix there.
- Undefined behaviour after following a null link: the methods report it and promise nothing else.
- GeoMembers.MemberBox: the modelled server gives no error status and no odd number of blocks; GeoMembers.BoxList takes any response. The key is not prefixed.
- Replies.MapResponse: the special reply of the info command (twin 0), conversion to integers and unserialising are not modelled.
- The look-up of the centre member with zget, and geo_distance: a single read through the same decoding.
- The reconnecting reads and writes are not composed with the geo search, which reads a direct stream.
- Real sockets, timeouts, pauses between attempts and persistent streams: replaced by the network script.
- The C library's qsort: an insertion sort stands for it; the theorems after it hold of any ordered permutation.
- Length lines of -2 and below or from 2^31 - 2 on: the process dies of reading one. Beyond the range of int, where atoi is undefined, the model says the same.
- Memory that runs out before.
- Reply keys read behind their block, which a prefix with a NUL can lead to: excluded as undefined.
- Serialisers, conversion of PHP values to strings and numbers, numeric-string array keys, and the special reply of the info command.
- geohashBitsComparator, the PHP method wrappers and the module glue: not used by the core or only argument parsing.
- NearestMembers.EntriesReturned: the number of entries is given for names that differ as C strings; Ranking.ReturnedAll and Ranking.ReturnedKeys cover the others.
- The server beyond zscan: replies to other commands are refusals.
