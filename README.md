# enigmap, modelled in Dafny

enigmap generates hexagonal world maps and renders them. A map is a
`size_x` by `size_y` field of hexes in offset coordinates. It wraps
horizontally. Each hex carries a terrain type and a set of decoration flags.
This project models the integer core of the library:

- **Hex grid** (`hex.dfy`, `hexmap.dfy`):
  - wrap normalisation, distance, neighbours, rings and spirals;
  - the terrain-type conversions and the decoration bits;
  - the storage layout of the field.
- **Generators**:
  - the byte seed encoder (`seed.dfy`);
  - the ocean pass of the circle generator (`circle.dfy`);
  - the clear pass of the islands generator (`islands.dfy`);
  - the debug generator (`debug_gen.dfy`).
- **Plate generator** (`geo*.dfy`). Its discrete stages are modelled:
  - the per-plate cost flood;
  - the cheapest-plate assignment;
  - small-plate and orphan-plate removal;
  - hole filling;
  - the final per-cell direction list.
- **Renderers**:
  - the image buffer (`image.dfy`);
  - tile stitching (`tiles.dfy`);
  - the scan-line state machine, wrap table and anti-alias averaging of the software renderer (`basic.dfy`);
  - the SVG renderer's wrap copies and `#RRGGBB` fills (`vector.dfy`);
  - the textured renderer's settings, texture bookkeeping, error texture and instance keys (`sprite.dfy`).

The model follows the source's form:
- The generator passes that rewrite a map in place (circle, islands, debug) are methods on a `HexMap` class. Each is tied to a function of the old field, and lemmas about that function state what the pass promises.
- The plate generator's stages are methods too, but they pass the per-cell plate tags along as a `seq<Label>` value rather than writing them into the map (see Left out).
- Loops keep their loops, with invariants.
- Pure computations are functions.
- An explicit `panic!`, a failed `unwrap` and a missing map key are `None` or `Panicked` outcomes rather than preconditions. Out-of-range slice indexing and division by zero are preconditions on a few members; Left out lists each of them.

Integers are unbounded. Rust's truncating `/` on negative rows is written out as `HexGrid.Half`.

## Model

| member | source | states |
|---|---|---|
| HexGrid.TypeToIndex | enigmap/src/hex.rs:179-197 | the index lies in 0..12 and is 12 exactly for a Debug colour |
| HexGrid.TypeFromIndex | enigmap/src/hex.rs:199-218 | defined (no panic) exactly for 0..12, and converting the result back gives the index |
| HexGrid.TypeIndexRoundTrip | enigmap/src/hex.rs:179-218 | a non-Debug type survives the round trip through its index; a Debug colour comes back as black Debug |
| HexGrid.DecimalByte | enigmap/src/hex.rs:235 | a byte prints as one to three decimal digits |
| HexGrid.TypeName | enigmap/src/hex.rs:220-238 | a non-Debug name has 3 to 10 characters; a Debug name starts with "Debug: " and has at least 14 |
| HexGrid.TypeStringsInverse | enigmap/src/hex.rs:240-257 | the name table maps each name to the type that prints as it; every non-Debug type is found by its name; no Debug name is in the table |
| HexGrid.DecorIndependent | enigmap/src/hex.rs:265-275 | the six flags are distinct bits: the empty set has none, setting one flag sets it and leaves every other flag as it was |
| HexGrid.FromCoords | enigmap/src/hex.rs:28-30 | a new hex has the given coordinates, Water terrain and no decoration |
| HexGrid.Half | enigmap/src/hex.rs:106-108 | `y/2` truncated toward zero, as Rust divides, for negative rows too |
| HexGrid.UnwrapCoords | enigmap/src/hex.rs:104-112 | y never changes; x changes by 0, +size_x or -size_x; an x already inside its row is kept; an x within one width of the row is brought into the row |
| HexGrid.UnwrapIdempotent | enigmap/src/hex.rs:104-112 | unwrapping an unwrapped position changes nothing |
| HexGrid.UnwrapExamples | enigmap/src/hex.rs:288-293 | the four unit-test cases: (-1,1)→(9,1), (-1,2)→(-1,2), (0,1)→(0,1), (10,1)→(0,1) |
| HexGrid.Distance | enigmap/src/hex.rs:45-57 | the axial distance, half the sum of the three coordinate differences; `DistanceExact`, `DistanceMetric` and `DistanceRowBound` state its properties |
| HexGrid.DistanceExact | enigmap/src/hex.rs:45-57 | the sum of the three axis differences is even, so the halving is exact |
| HexGrid.DistanceMetric | enigmap/src/hex.rs:45-57 | distance is symmetric, zero exactly for equal coordinates, and obeys the triangle inequality |
| HexGrid.DistanceRowBound | enigmap/src/hex.rs:55-57 | distance is at least the difference in rows |
| HexGrid.DistanceExamples | enigmap/src/hex.rs:296-306 | the unit-test distances: 1 to all six neighbours of (5,4), 2 and 3 for the two far pairs |
| HexGrid.OffsetsAdjacent | enigmap/src/hex.rs:85-101 | each of the six neighbour offsets is at distance 1 |
| HexGrid.NeighboursUnchecked | enigmap/src/hex.rs:85-101 | exactly six neighbours, neighbour k in the row the k-th offset names |
| HexGrid.NeighbourAdjacent | enigmap/src/hex.rs:85-101 | each unchecked neighbour is its offset position shifted by zero or one map width, in the offset's row, at distance 1 once the shift is undone |
| HexGrid.GetNeighbours | enigmap/src/hex.rs:60-82 | 2 + 2·[y ≠ size_y-1] + 2·[y ≠ 0] neighbours, all in rows y-1..y+1, all among the unchecked six, never below the last row or above row 0 |
| HexGrid.GetNeighboursRows | enigmap/src/hex.rs:60-82 | every unchecked neighbour whose row exists is listed by the checked enumeration |
| HexGrid.NeighbourInRow | enigmap/src/hex.rs:85-112 | the neighbours of a cell inside its row are inside their own rows |
| HexGrid.NeighboursInMap | enigmap/src/hex.rs:60-82 | every checked neighbour of a cell of the map is a cell of the map |
| HexGrid.Ring | enigmap/src/hex.rs:115-133 | the unwrapped ring of radius r: six sides walked from the start cell; `RingAtDistance` and `GetRing` relate it to `get_ring` |
| HexGrid.RingAtDistance | enigmap/src/hex.rs:115-133 | every position of the unwrapped ring of radius r is at distance r from the centre |
| HexGrid.RingStep | enigmap/src/hex.rs:124-131 | consecutive ring positions differ by the neighbour offset the loop steps along |
| HexGrid.RingSides | enigmap/src/hex.rs:124-131 | i sides of the ring hold i·r positions |
| HexGrid.RingSidesDistance | enigmap/src/hex.rs:115-133 | every position on the first i sides is at distance r |
| HexGrid.GetRing | enigmap/src/hex.rs:115-133 | 6·r positions, empty for r = 0; each equals the unwrapped ring position up to a whole map width, and exactly when no wrap is needed |
| HexGrid.Disk | enigmap/src/hex.rs:136-146 | the centre then rings 1..r: 1 + 3r(r+1) positions, the first the centre |
| HexGrid.DiskDistance | enigmap/src/hex.rs:136-146 | every position of the disk is within distance r |
| HexGrid.GetSpiral | enigmap/src/hex.rs:136-146 | empty for radius 0 (not the centre alone); otherwise the exact centre first, then 1 + 3r(r+1) positions in all matching the disk up to wrap, and exactly, all within distance r, when no wrap is needed |
| HexMaps.CoordsToIndex | src/generators/islands.rs:92 | the storage index of (x, y) in the assumed layout; `CoordsRoundTrip` and `IndexRoundTrip` show it inverts `IndexToCoords` on the field |
| HexMaps.HexMap.constructor | src/main.rs:18 | `HexMap::new(size_x, size_y)`: a valid field of size_x·size_y Water cells without decorations, laid out row by row |
| HexMaps.IndexToCoords | src/generators/circle.rs:29-33 | storage index i lies in row i / size_x |
| HexMaps.CoordsRoundTrip | src/generators/islands.rs:91-93 | every valid cell has an index inside the field that leads back to the cell |
| HexMaps.IndexRoundTrip | src/generators/circle.rs:29-33 | every index of the field names a valid cell stored at that index |
| HexMaps.CellIndices | src/generators/geo.rs:115-116 | the storage indices of a list of cells, one per cell, each inside the field and naming its cell |
| HexMaps.NeighbourIndices | src/generators/geo.rs:115-116 | the storage indices of a cell's checked neighbours, in neighbour order, at most six, each naming its neighbour |
| HexMaps.NeighboursOf | src/generators/geo.rs:115-116 | the neighbour indices of the cell at an index: at most six, all inside the field |
| RngSeeds.LowByte | src/generators/mod.rs:26 | `as u8` keeps the low eight bits |
| RngSeeds.RngSeed | src/generators/mod.rs:22-30 | the generator seed has 32 bytes |
| RngSeeds.SeedToRngSeed | src/generators/mod.rs:22-30 | the rotate-and-write loop produces byte i = low byte of the seed rotated left by 8·i bits |
| RngSeeds.RotateFour | src/generators/mod.rs:27 | four byte rotations give the word back |
| RngSeeds.RotatedPeriod | src/generators/mod.rs:25-28 | the rotated copies repeat with period 4 |
| RngSeeds.RngSeedPeriod | src/generators/mod.rs:22-30 | byte i equals byte i + 4 |
| RngSeeds.RngSeedFirstBytes | src/generators/mod.rs:22-30 | bytes 0..3 are seed bits 0-7, 24-31, 16-23 and 8-15 |
| RngSeeds.RotatedBytes | src/generators/mod.rs:27 | the low byte after one, two, three rotations is the top, third and second byte |
| RngSeeds.RngSeedInjective | src/generators/mod.rs:22-30 | distinct seeds give distinct generator seeds |
| Circle.IsLand | src/generators/circle.rs:31-34 | every terrain other than Water, Ice and Ocean is land |
| Circle.LandOf | src/generators/circle.rs:28-36 | the coordinates of exactly the cells that are not Water, Ice or Ocean, in order |
| Circle.LandOfRow | src/generators/circle.rs:29-35 | the land of one row is a row list in increasing x |
| Circle.RowCells | src/generators/circle.rs:29 | a `chunks_exact(size_x)` chunk has size_x cells |
| Circle.LayoutRow | src/generators/circle.rs:29 | chunk y of the field holds exactly row y in increasing x |
| Circle.LandRows | src/generators/circle.rs:27-36 | the snapshot loop gives, per row, the land coordinates of that row's chunk |
| Circle.DistanceConvex | src/generators/circle.rs:58-61 | along a row, once distance has grown it does not drop again, so the first `break` skips no closer land |
| Circle.ScanRow | src/generators/circle.rs:55-69 | one row's scan never raises the distance; it stays above d when all land of the row is farther than d; when it ends at or above d no land of the row is closer |
| Circle.NearestLand | src/generators/circle.rs:47-70 | the scanned rows hy-d..hy+d yield a distance above d exactly when d < u32::MAX and every land cell of the snapshot is farther than d |
| Circle.Oceanised | src/generators/circle.rs:41-74 | only Water cells change and only to Ocean; coordinates and decorations stay |
| Circle.OceanIdempotent | src/generators/circle.rs:26-75 | a second ocean pass changes nothing |
| Circle.RowsSeeLand | src/generators/circle.rs:28-54 | the row snapshot sees land within d exactly when the field has land within d |
| Circle.LandInRows | src/generators/circle.rs:28-36 | every land cell of the field is in its row of the snapshot |
| Circle.RowsFromLand | src/generators/circle.rs:28-36 | every snapshot entry is a land cell of the field |
| Circle.OceanPass | src/generators/circle.rs:26-75 | the map afterwards is the ocean function of the map before |
| Islands.DiffCount | src/generators/islands.rs:89-96 | the count of differing neighbours is at most the number of neighbours |
| Islands.DiffNeighbours | src/generators/islands.rs:89-96 | a cell has at most six differing neighbours |
| Islands.ClearedCell | src/generators/islands.rs:86-101 | a cell changes only from `from` to `to`, and a `from` cell changes exactly when more than `strength` snapshot neighbours differ; coordinates and decor stay |
| Islands.Cleared | src/generators/islands.rs:86-103 | the pass keeps the field's length and every cell's coordinates |
| Islands.StrongPassKeeps | src/generators/islands.rs:97 | with strength 6 or more the pass changes nothing |
| Islands.SelfPassKeeps | src/generators/islands.rs:97-101 | with `from` equal to `to` the pass changes nothing |
| Islands.CountDiffNeighbours | src/generators/islands.rs:89-96 | the counting loop computes the differing-neighbour count |
| Islands.ClearCell | src/generators/islands.rs:88-101 | one iteration decides the cell from the snapshot alone |
| Islands.ClearPass | src/generators/islands.rs:86-103 | the map afterwards is the pass function of the cloned map, so visiting order does not matter |
| DebugGen.BandType | src/generators/debug.rs:19-21 | the first loop's type has index (i / size_x / 2) % 13, which never panics |
| DebugGen.AsByte | src/generators/debug.rs:29 | `as u8` keeps values below 256 |
| DebugGen.Red | src/generators/debug.rs:27 | the red channel, the column scaled to 0..255 and cast to a byte; `RedBound` bounds it |
| DebugGen.Green | src/generators/debug.rs:28 | the green channel, the row scaled to 0..255 and cast to a byte; `GreenBound` bounds it |
| DebugGen.DebugTerrain | src/generators/debug.rs:19-33 | a cell ends Debug exactly when its band index is 12, with red and green from its column and row and blue 0; otherwise it keeps its band type |
| DebugGen.RedBound | src/generators/debug.rs:27 | red = (i % size_x)·255/size_x is at most 254 |
| DebugGen.GreenBound | src/generators/debug.rs:28 | for a cell of the map green = row·255/size_y is at most 254 |
| DebugGen.RowPairsShareType | src/generators/debug.rs:20 | rows 2k and 2k+1 get the same band type |
| DebugGen.TypeIndexInjective | src/generators/debug.rs:20 | types with the same index are the same, black Debug being the only Debug the conversion yields |
| DebugGen.Generate | src/generators/debug.rs:18-34 | every cell's terrain becomes its debug terrain and nothing else changes |
| DebugGen.BandLoop | src/generators/debug.rs:19-21 | the first loop sets every cell to its band type |
| DebugGen.ColourLoop | src/generators/debug.rs:24-33 | the second loop recolours exactly the Debug cells |
| GeoFlood.MapAdjacency | src/generators/geo.rs:115-116 | the neighbour table of the map: one list per cell, the cell's neighbour indices, at most six each |
| GeoFlood.RelaxPlate | src/generators/geo.rs:105-127 | the FIFO flood ends with the seed at cost 0, every reached cell relaxed toward every neighbour, and every other reached cell's cost paid for by a reached neighbour |
| GeoFlood.LowerEntry | src/generators/geo.rs:117-125 | a strict improvement keeps the flood's invariants and lowers its termination measure |
| GeoFlood.WalkBound | src/generators/geo.rs:103-128 | at the fixpoint no walk from the seed is cheaper than its end's entry |
| GeoFlood.WalkExists | src/generators/geo.rs:103-128 | every reached cell's entry is the cost of some walk from the seed, or more |
| GeoFlood.ShortestCosts | src/generators/geo.rs:103-128 | the flood computes shortest walk costs: reached exactly when a walk exists, and the entry is the least walk cost |
| GeoAssign.CheapestPlate | src/generators/geo.rs:133-140 | the first plate of least cost, ties to the lowest index; None (the `unwrap` panic) when some plate never reached the cell |
| GeoAssign.TallyAppend | src/generators/geo.rs:141-142 | labelling one more cell keeps the tallies exact and adds one to their sum |
| GeoAssign.AssignPlates | src/generators/geo.rs:131-143 | fails exactly when a cell exists with no plate or an unreached plate; otherwise each cell gets its cheapest plate and the tallies sum to the cell count |
| GeoLabels.PlateOf | src/generators/geo.rs:186-193 | the plate scan finds a plate's own index and 0 for the placeholder |
| GeoLabels.StatsAccount | src/generators/geo.rs:146-157 | the tallies plus the placeholders account for every cell, which is what `hexes_to_fill` counts |
| GeoLabels.TalliedLive | src/generators/geo.rs:159-163 | with exact tallies a plate has a nonzero tally exactly when it labels some cell |
| GeoLabels.TallyRemove | src/generators/geo.rs:150-155 | turning one plate cell into the placeholder with the tally decrement keeps the tallies exact and adds one placeholder |
| GeoLabels.FindPlate | src/generators/geo.rs:186-193 | the scan loop computes the plate index of a label |
| GeoSmall.Small | src/generators/geo.rs:147-150 | a plate is small when its tally is under 0.5% of the area, compared exactly as 200·tally < area |
| GeoSmall.Cleared | src/generators/geo.rs:148-157 | a cell becomes the placeholder exactly when it is one already or its plate is small |
| GeoSmall.ClearCell | src/generators/geo.rs:149-156 | one cell's plate loop clears it and decrements its plate's tally exactly when the plate is small |
| GeoSmall.RemoveSmallPlates | src/generators/geo.rs:145-157 | every small plate loses all cells and ends with tally 0; others keep cells and tally; the fill count grows by the new placeholders |
| GeoOrphans.ExpandCell | src/generators/geo.rs:176-199 | one popped cell visits its unvisited same-plate neighbours and flags each other plate once, keeping the search's invariants |
| GeoOrphans.ComponentUnique | src/generators/geo.rs:164-200 | the least closed set around the seed is unique, so the search's region is determined |
| GeoOrphans.TouchedPlates | src/generators/geo.rs:164-200 | the BFS visits exactly the seed's same-plate component and flags exactly the plates it touches (a placeholder as plate 0), counting them |
| GeoOrphans.Dissolved | src/generators/geo.rs:203-209 | every cell of the plate, and no other, becomes the placeholder |
| GeoOrphans.DissolvePlate | src/generators/geo.rs:202-210 | the absorption loop dissolves the plate, drops its tally to 0 and counts its cells as new placeholders |
| GeoOrphans.TouchFlags | src/generators/geo.rs:186-198 | flag q is set exactly when the region touches plate q |
| GeoOrphans.OrphanPass | src/generators/geo.rs:159-211 | one iteration only turns cells into placeholders: a zero-tally plate is skipped, an orphan (`IsOrphan`: its unique least region touches exactly one plate) is dissolved with tally 0, any other plate is left alone |
| GeoOrphans.OrphanLoop | src/generators/geo.rs:158-211 | the loop over plates 0..k-1, each tested on what the earlier plates left, only turns cells into placeholders |
| GeoOrphans.OrphanStep | src/generators/geo.rs:159-211 | the BFS-and-absorb iteration computes exactly `OrphanPass` (the region it searches is the unique one, by `ComponentUnique`); tallies stay exact |
| GeoOrphans.RemoveOrphans | src/generators/geo.rs:158-211 | the result is `OrphanLoop` over every plate; each plate ends whole or dissolved (tally 0, all cells placeholders), tallies stay exact, and the fill count grows by the new placeholders |
| GeoFill.NbLabels | src/generators/geo.rs:225-227 | one snapshot label per neighbour |
| GeoFill.Votes | src/generators/geo.rs:223-240 | one vote count per plate, none above the number of neighbours |
| GeoFill.Strongest | src/generators/geo.rs:242-249 | the largest count and the first index holding it; (0, 0) when all counts are zero |
| GeoFill.Refill | src/generators/geo.rs:217-253 | plate cells keep their label; a placeholder only takes a plate present in the snapshot |
| GeoFill.FillStep | src/generators/geo.rs:215-254 | a pass keeps the length and keeps every label a valid plate |
| GeoFill.CountVotes | src/generators/geo.rs:223-240 | the counting loop computes the votes of the snapshot |
| GeoFill.MostVoted | src/generators/geo.rs:242-249 | the running-maximum loop computes the strongest vote |
| GeoFill.FillPass | src/generators/geo.rs:215-254 | one pass over the clone is the pass function, and `changed` is the drop in placeholders |
| GeoFill.FillIter | src/generators/geo.rs:214-255 | k passes keep the length and keep every label a valid plate |
| GeoFill.FillHoles | src/generators/geo.rs:214-255 | the result is `FillIter` after `steps` passes, every earlier iterate still had holes and was changed by the next pass; the loop ends with no placeholder, or at a non-empty fixpoint where the source spins forever; plate cells never change and no new plate appears |
| GeoFill.PassOnlyFills | src/generators/geo.rs:250-253 | a pass that fills nothing changes nothing, so `Diverges` is a true fixpoint |
| GeoIndices.Rank | src/generators/geo.rs:260-266 | plate q's direction index is the number of surviving plates before it |
| GeoIndices.RankMonotone | src/generators/geo.rs:260-266 | surviving plates get strictly increasing direction indices |
| GeoIndices.PlateMajor | src/generators/geo.rs:258-273 | the list holds exactly one entry per surviving cell, each direction below the number of directions, which is the number of surviving plates |
| GeoIndices.AppendPlate | src/generators/geo.rs:267-271 | the inner loop adds exactly the cells of one plate with its direction |
| GeoIndices.CellOrder | src/generators/geo.rs:274 | the surviving cells' entries, strictly increasing by cell |
| GeoIndices.ByCellUnique | src/generators/geo.rs:274 | two cell-ordered lists with the same entries are equal |
| GeoIndices.SortedIsCellOrder | src/generators/geo.rs:258-274 | any permutation of the plate list sorted by cell is the cell-order list, so the unstable sort has one possible result |
| GeoIndices.FullCellOrder | src/generators/geo.rs:274-278 | with every cell filled, entry c is (c, its plate's direction) |
| GeoIndices.DirectionsFollowPlates | src/generators/geo.rs:260-270 | two cells share a direction exactly when they share a plate, and a lower plate has a lower direction |
| GeoIndices.RankOnto | src/generators/geo.rs:260-266 | every direction index belongs to some surviving plate |
| Geo.FilledResult | src/generators/geo.rs:256-278 | a fully filled map gives a finished result: every cell tagged, directions per plate, each direction used |
| Geo.FloodShortest | src/generators/geo.rs:103-128 | a finished flood holds, for every cell, the cost of the cheapest walk from the seed (None exactly when no walk reaches it) |
| Geo.BuildTable | src/generators/geo.rs:103-128 | one flood per plate: each plate's row has its seed at 0, is relaxed everywhere, and is the cheapest-walk row of that plate (`ShortestTable`) |
| Geo.PreFill | src/generators/geo.rs:145-211 | the labels the fill loop starts from (small plates cleared, then the orphan loop) name only valid plates |
| Geo.FinishPlates | src/generators/geo.rs:145-279 | never panics; the fill loop runs from `PreFill` as `FillRun` says (Hangs at a fixpoint with holes, Plates after filling every hole), and a finished result is the cell-order direction list of the filled labels |
| Geo.GeneratePlates | src/generators/geo.rs:42-279 | the ghost table is the cheapest-walk table; on an empty map it panics exactly when there is a plate (the first flood indexes an empty table); on a non-empty map it panics exactly when there is no plate or some plate never reaches a cell; otherwise each cell is claimed by its cheapest plate, the fill loop runs from `PreFill` of that claim as `FillRun` says, and a finished result has every cell tagged and the cell-order direction list |
| Images.Channels | enigmap-renderer/src/renderers/image.rs:115-119 | 3 bytes per pixel for Rgb, 4 for Rgba |
| Images.OffsetInjective | enigmap-renderer/src/renderers/image.rs:22 | different pixels of a row-major image have different offsets |
| Images.OffsetInside | enigmap-renderer/src/renderers/image.rs:12 | a pixel inside the image has an offset below w·h |
| Images.Image.constructor | enigmap-renderer/src/renderers/image.rs:11-14 | a fresh zeroed buffer of w·h·channels bytes |
| Images.Image.FromBuffer | enigmap-renderer/src/renderers/image.rs:16-18 | the image wraps the given buffer |
| Images.Image.Offset | enigmap-renderer/src/renderers/image.rs:21-26 | the pixel position x + y·width that every accessor scales by the channel count; `OffsetInjective` and `OffsetInside` state its properties |
| Images.Image.GetPixel | enigmap-renderer/src/renderers/image.rs:108-111 | a pixel reads as three bytes, those at 3·(x + y·w); `PutPixel` and `FromFn` are specified through it |
| Images.Image.PixelRgba | enigmap-renderer/src/renderers/image.rs:40-46 | a pixel reads as four bytes, those at 4·(x + y·w); `PutPixelRgba` and `FromFnRgba` are specified through it |
| Images.Image.IsRgba | enigmap-renderer/src/renderers/image.rs:100-105 | true exactly for Rgba |
| Images.Image.PutPixel | enigmap-renderer/src/renderers/image.rs:21-26 | the pixel reads back as the colour; every other byte is unchanged |
| Images.Image.PutHorLine | enigmap-renderer/src/renderers/image.rs:29-37 | pixels x0..x1-1 of the row read back as the colour; no byte outside the span changes |
| Images.Image.PutPixelRgba | enigmap-renderer/src/renderers/image.rs:40-46 | the four bytes read back as the colour; every other byte is unchanged |
| Images.FromFn | enigmap-renderer/src/renderers/image.rs:48-60 | a fresh w by h Rgb image whose every pixel is f(x, y) |
| Images.FillColumn | enigmap-renderer/src/renderers/image.rs:54-57 | the inner loop sets column x and leaves other columns alone |
| Images.FromFnRgba | enigmap-renderer/src/renderers/image.rs:62-74 | a fresh w by h Rgba image whose every pixel is f(x, y) |
| Images.FillColumnRgba | enigmap-renderer/src/renderers/image.rs:68-71 | the inner loop sets column x and leaves other columns alone |
| Renderers.CopySlice | enigmap-renderer/src/renderers.rs:103 | `copy_from_slice` writes the span from the source and nothing else |
| Renderers.TilesToImage | enigmap-renderer/src/renderers.rs:62-108 | fails exactly on a mis-sized tile or a wrong tile count; otherwise a fresh target_x by target_y Rgba image whose pixel (x, y) is byte ((y%ts)·ts + x%ts)·4 of tile (y/ts)·tiles_x + x/ts |
| Renderers.SingleTileIsImage | enigmap-renderer/src/renderers.rs:62-108 | one tile of the image's own size is stitched into exactly that tile |
| Renderers.StitchRow | enigmap-renderer/src/renderers.rs:89-105 | one outer iteration stitches row y, cutting the last tile at the target width, and changes nothing outside the row |
| Renderers.RowPrefixExtend | enigmap-renderer/src/renderers.rs:91-104 | each tile slice extends the stitched prefix of the row by one tile width |
| Renderers.Span | enigmap-renderer/src/renderers.rs:125-129 | a tile's span starts at tile·ts and ends at min((tile+1)·ts, target) |
| Renderers.AddTileToImage | enigmap-renderer/src/renderers.rs:111-143 | fails exactly on a mis-sized tile, then changes nothing; otherwise every row of the tile's span is copied from tile row y % ts, and no byte outside the span changes |
| Renderers.CopyTileSlice | enigmap-renderer/src/renderers.rs:131-142 | one row of the span is copied from its tile row and nothing else changes |
| Renderers.VertexOffset | enigmap-renderer/src/renderers.rs:29-41 | defined exactly for indices 0..5; above 5 is the panic |
| Renderers.VertexOpposite | enigmap-renderer/src/renderers.rs:25-41 | vertices i and i + 3 are opposite across the centre |
| BasicRenderer.Step | src/renderers/basic.rs:558-565 | the state moves exactly from Before on an inside sample and from In on an outside one, one step forward |
| BasicRenderer.Run | src/renderers/basic.rs:147-180 | the state after a row's successive `update` calls; `RunMonotone`, `RunAppend`, `RunFromIn`, `RunFromBefore` and `RunLeaves` state what a run does |
| BasicRenderer.LineCursor.constructor | src/renderers/basic.rs:135 | a scan line starts Before |
| BasicRenderer.LineCursor.Reset | src/renderers/basic.rs:554-556 | reset always gives Before |
| BasicRenderer.LineCursor.Update | src/renderers/basic.rs:558-565 | update in place is one step of the machine |
| BasicRenderer.RunMonotone | src/renderers/basic.rs:558-565 | over any sequence of updates the state never moves backward |
| BasicRenderer.AfterAbsorbing | src/renderers/basic.rs:558-565 | no update leaves After |
| BasicRenderer.RunAppend | src/renderers/basic.rs:558-565 | updates compose over concatenated sequences |
| BasicRenderer.RunFromIn | src/renderers/basic.rs:558-565 | from In the state stays In exactly while every sample is inside, and is After otherwise |
| BasicRenderer.RunFromBefore | src/renderers/basic.rs:558-565 | from Before the state stays Before exactly while no sample is inside |
| BasicRenderer.RunLeaves | src/renderers/basic.rs:558-565 | a line ends After exactly when an inside sample is later followed by an outside one |
| BasicRenderer.RenderWrap | src/renderers/basic.rs:510-516 | no wrap unless wrapping is on; Right exactly for column 0; Left exactly for the last column of a map at least two wide |
| BasicRenderer.WrapByColumn | src/renderers/basic.rs:510-516 | by column: 0 is Right, the last is Left, the rest do not wrap; a one-column map wraps every cell Right |
| BasicRenderer.WrapTable | src/renderers/basic.rs:347-355 | the table of `render_aa_image` holds, per cell, the same wrap `render` computes |
| BasicRenderer.Average4 | src/renderers/basic.rs:420 | the floor of the mean: 4·r ≤ a+b+c+d < 4·r + 4, so it fits a byte and lies between the least and greatest input |
| BasicRenderer.AverageBetween | src/renderers/basic.rs:420 | the average lies between any lower and upper bound of the four inputs |
| BasicRenderer.AverageSame | src/renderers/basic.rs:420 | four equal samples average to themselves |
| BasicRenderer.ReconstructImage | src/renderers/basic.rs:399-426 | the first image is returned with every byte replaced by the average of that byte in all four images |
| VectorRenderer.VectorWrap | src/renderers/vector.rs:168-174 | Right exactly for the first cell of an even row, Left exactly for the last cell of an odd row, else skipped |
| VectorRenderer.WrapByCell | src/renderers/vector.rs:168-174 | the same by row and column |
| VectorRenderer.AgreesWithBasic | src/renderers/vector.rs:165-174 | a copied cell gets the software renderer's wrap side, except Left in a one-column map |
| VectorRenderer.WrapsBelow | src/renderers/vector.rs:165-174 | the copies are exactly the cells with a wrap, with their sides, in increasing cell order |
| VectorRenderer.WrapCopies | src/renderers/vector.rs:165-202 | nothing is emitted unless the map wraps; then exactly the wrapped cells |
| VectorRenderer.HexDigit | src/renderers/vector.rs:148 | a value below 16 prints as an upper-case hex digit |
| VectorRenderer.HexValue | src/renderers/vector.rs:148 | reading a digit inverts printing it |
| VectorRenderer.HexByte | src/renderers/vector.rs:148 | `{:02X}` is two upper-case digits |
| VectorRenderer.FillString | src/renderers/vector.rs:148 | '#' and six upper-case hex digits |
| VectorRenderer.ParseFill | src/renderers/vector.rs:148 | reads exactly the strings of that shape |
| VectorRenderer.FillRoundTrip | src/renderers/vector.rs:148 | each pair of digits encodes its channel: the fill reads back as the colour |
| VectorRenderer.ParseRoundTrip | src/renderers/vector.rs:148 | a string that reads as a colour is that colour's fill |
| VectorRenderer.FillInjective | src/renderers/vector.rs:148 | different colours get different fills |
| VectorRenderer.CellColour | src/renderers/vector.rs:40-58 | a Debug cell keeps its own bytes; any other cell takes its palette colour, tinted only when randomisation is on |
| VectorRenderer.GenerateColors | src/renderers/vector.rs:27-65 | one colour per cell |
| VectorRenderer.DebugPassthrough | src/renderers/vector.rs:40-58 | a Debug(r, g, b) cell is [r, g, b] whatever the palette, randomisation and draws |
| VectorRenderer.PlainPalette | src/renderers/vector.rs:44-47 | without randomisation a non-Debug cell has its palette colour |
| Sprites.NamedTypes | src/renderers/sprite.rs:801-812 | exactly the types named by string entries, never Debug, at most one per entry |
| Sprites.ParsedArray | src/renderers/sprite.rs:801-816 | `Setting::None` exactly when no entry names a type, else the named types |
| Sprites.ParseArray | src/renderers/sprite.rs:801-816 | the loop computes the parsed array |
| Sprites.ParseSetting | src/renderers/sprite.rs:276-291 | a result exactly for a boolean or an array entry; All exactly for true; an array is parsed |
| Sprites.ListContains | src/renderers/sprite.rs:822-827 | the scan finds exactly the listed types |
| Sprites.IsIncluded | src/renderers/sprite.rs:818-831 | never for None, always for All, membership for a list |
| Sprites.ParsedIncludes | src/renderers/sprite.rs:801-831 | a parsed array includes exactly the non-Debug types its strings name |
| Sprites.Checker | src/renderers/sprite.rs:376-385 | black exactly when (x/4)%2 ≠ (y/4)%2, magenta otherwise |
| Sprites.CheckerPattern | src/renderers/sprite.rs:376-385 | the board repeats every 8 pixels and neighbouring 4-pixel squares differ |
| Sprites.GenerateErrorTexture | src/renderers/sprite.rs:375-386 | a 32 by 32 Rgba image of that checkerboard |
| Sprites.NatToString | src/renderers/sprite.rs:596 | decimal digits without a leading zero |
| Sprites.ParseDigits | src/renderers/sprite.rs:682 | defined exactly for a non-empty run of digits |
| Sprites.DecimalRoundTrip | src/renderers/sprite.rs:680-683 | a printed number parses back to itself |
| Sprites.Split | src/renderers/sprite.rs:680 | splitting on '_' gives at least one piece |
| Sprites.SplitPlain | src/renderers/sprite.rs:680 | a string without '_' is one piece |
| Sprites.SplitAtFirst | src/renderers/sprite.rs:680 | the text before the first '_' is the first piece |
| Sprites.InstanceKey | src/renderers/sprite.rs:596 | variation 1 is keyed by the name, variation i > 1 by name, '_' and i-1 |
| Sprites.ParseDecimal | src/renderers/sprite.rs:680-685 | `parse::<usize>()`: an optional '+' then digits; `DecimalRoundTrip` shows it reads back `NatToString` |
| Sprites.ParseKey | src/renderers/sprite.rs:680-685 | a key's type name and texture index, None where the index fails to parse and `unwrap` panics; `KeyRoundTrip` shows it inverts `InstanceKey` |
| Sprites.KeyRoundTrip | src/renderers/sprite.rs:680-687 | for a name without '_' the key of variation i reads back as (name, i-1) |
| Sprites.NamesPlain | enigmap/src/hex.rs:240-257 | no terrain name contains '_' |
| Sprites.AddVariation | src/renderers/sprite.rs:204-216 | exactly one texture appended and the count raised by one for that type only; None where `unwrap` panics |
| Sprites.AddKeepsConsistent | src/renderers/sprite.rs:204-216 | adding keeps every count equal to its list's length |
| Sprites.RemoveAt | src/renderers/sprite.rs:226 | `Vec::remove`: one element shorter, the rest shifted down |
| Sprites.RemoveVariationAsWritten | src/renderers/sprite.rs:220-235 | the source's guard: refused or panicked leaves the bank alone; a removal takes out exactly one texture and keeps the count |
| Sprites.GuardAdmitsCount | src/renderers/sprite.rs:229-232 | a consistent bank of two variations panics on index 2, which the guard admits |
| Sprites.StaleCountBreaksConsistency | src/renderers/sprite.rs:229-233 | every successful removal as written leaves the count above the list's length |
| Sprites.RemoveVariation | src/renderers/sprite.rs:220-235 | refused exactly when the count is 1 or the index is not below it; a removal takes out exactly one texture and lowers the count |
| Sprites.RemoveKeepsConsistent | src/renderers/sprite.rs:220-235 | on a consistent bank the corrected removal never panics, removes exactly for an index in range with more than one variation, and stays consistent |
| Sprites.InstanceKeys | src/renderers/sprite.rs:557-596 | one key per variation 1..count |
| Sprites.KeyLookup | src/renderers/sprite.rs:679-689 | a lookup that succeeds names a loaded type |
| Sprites.KeysResolve | src/renderers/sprite.rs:557-689 | every key made from a type's own count finds texture i-1 |
| Sprites.CoverLookupsAsWritten | src/renderers/sprite.rs:603-703 | the cover lookups the 2.5D loop makes, one per plain variation of the type |
| Sprites.CoverKeysOverrun | src/renderers/sprite.rs:603-645 | with two plain variations and one cover texture the second cover lookup finds no texture |
| Sprites.CoverLookups | src/renderers/sprite.rs:603-703 | the cover lookups, one per cover variation of the type |
| Sprites.CoverKeysResolve | src/renderers/sprite.rs:603-703 | every corrected cover lookup of a loaded type finds cover texture k |
| Sprites.Sprite.AddTextureVariation | src/renderers/sprite.rs:204-216 | the chosen bank becomes the added bank, the other bank and the settings stay, and consistency is kept |
| Sprites.Sprite.RemoveTextureVariation | src/renderers/sprite.rs:220-235 | the chosen bank becomes the corrected removal's bank, the rest stays, and consistency is kept |
| Sprites.Sprite.SetRandomColor | src/renderers/sprite.rs:246-248 | sets that setting and nothing else |
| Sprites.Sprite.SetRandomRotation | src/renderers/sprite.rs:259-261 | sets that setting and nothing else |
| Sprites.Sprite.SetCover | src/renderers/sprite.rs:272-274 | sets that setting and nothing else |

## Left out

- enigmap/src/hexmap.rs is not part of this model. The storage layout is assumed: index = y·size_x + x + y/2, with row y holding x in [-(y/2), size_x - y/2). `HexMaps.HexMap.constructor` builds a field of Water cells in that layout. The round-trip lemmas show the layout is a bijection.
- Floating point is not modelled:
  - `Hex::center`, the float vertex coordinates of `get_hex_vertex` (only the index guard and the vertex order are kept, as `VertexOffset`);
  - the noise fields and float cost formula of the plate generator, which becomes an abstract strictly positive `edge` cost on natural numbers;
  - the float blend of the noise at the left edge;
  - the float tint of randomised colours, which becomes an abstract `tint` function per cell.
- GeoSmall.Small: the f32 threshold `size_x·size_y·0.005` is compared exactly, as 200·tally < area. f32 rounding of large areas is not modelled.
- Randomness, clocks and I/O are not modelled:
  - plate centres become a `seeds` parameter of storage indices;
  - random plate directions are only counted;
  - the random variation chosen for a sprite instance is not modelled;
  - the GPU drawing, PNG/TOML loading, the SVG document and the texture files are not modelled.
- `Circle::generate`, `Islands::ice_pass`/`land_pass`, `Geo::generate_height` and `Hex::center` are noise or float code and are not modelled.
- Integer widths: u32/i32/usize arithmetic is unbounded here.
  - Overflow of `size_x * size_y` and of the coordinate sums is not modelled.
  - The `as u32` cast of the index in `remove_variation` is not modelled.
  - A decimal key index too large for `usize` is not modelled.
- Circle.NearestLand: the `u32::MAX` start of the search is kept as a constant. The `distance_in_line` sentinel is modelled by the row's first comparison.
- Threads are not modelled. `reconstruct_image` splits the buffer into per-thread chunks and `render_aa_image` renders the four images in parallel. Neither split changes any byte, so `ReconstructImage` is one loop over the whole buffer.
- `render_polygon`, `render_hex_to_image` and `check_inside` of the software renderer rasterise float edge functions. Only their `LineState` machine is modelled.
- The software renderer's own `generate_colors` matches on float Debug variants of an older terrain type. Only the SVG renderer's version is modelled.
- Renderers.TilesToImage and Renderers.AddTileToImage take the tile counts and the target size as parameters related by `Covers`, rather than as the ceiling and truncation of the float map extent times the multiplier.
- Images.Image.PutHorLine is specified pixel by pixel. The chunked slice iteration is a loop over pixels.
- Sprites: textures are values (`Texture`), and the two HashMap pairs are Dafny maps (`Bank`). `set_texture`, `from_folder`, the `variations` tables read from the settings file and `load_texture_data` are not modelled. The render loops are modelled only through the keys they create and look up.
- Sprites.Sprite: construction is not modelled. No constructor stands for `Sprite::default` or `load_texture_data` (sprite.rs:322, 741). The methods take `Valid()`, each bank's counts equal to its lists' lengths, as given for a loaded sprite.
- Sprites.Sprite.RemoveTextureVariation models the corrected removal (see Findings). The source's behaviour is `Sprites.RemoveVariationAsWritten`.
- Images.Image.GetPixel, Images.Image.PutPixel, Images.Image.PutPixelRgba and Images.Image.PutHorLine require the pixels to lie inside the buffer. The source indexes the `Vec` and panics there; that panic is not modelled. PutHorLine also requires `x0 <= x1`, where the source's u32 subtraction `x1 - x0` underflows and panics.
- BasicRenderer.RenderWrap and BasicRenderer.WrapTable require `size_x >= 1` when the map wraps. The source computes `index % size_x` and panics on zero; that panic is not modelled.
- BasicRenderer.ReconstructImage requires four images whose buffers are at least as long as the first. The source's `remove(0)` and its chunk indexing panic otherwise; those panics are not modelled.
- Renderers.TilesToImage requires a tile size of at least 1. The source divides by `tile_size` and panics on zero; that panic is not modelled.
- Renderers.AddTileToImage requires, when the tile has rows inside the target, that its column span does not start past `target_size_x` and that the buffer reaches the end of the span's last row. The source panics in both cases: `end - start` underflows, or `split_at_mut` is out of range. Those panics are not modelled.
- Geo stages (GeoSmall.RemoveSmallPlates, GeoOrphans.RemoveOrphans, GeoFill.FillHoles, Geo.GeneratePlates): the plate tags the source writes into each hex's `terrain_type` are a `seq<Label>` value handed from stage to stage. The in-place update of the `HexMap` is not modelled.
- GeoFill.FillHoles and Geo.GeneratePlates: when a placeholder can never be filled, the source's `while` loop never ends. The model reports this as an explicit outcome instead of looping: `Diverges` of `GeoFill.FillOutcome` for `FillHoles`, and `Hangs` of `Geo.PlatesOutcome` for `GeneratePlates`.

## Findings

| source | as written | input that shows it | evidently intended | confidence | as-written member | corrected member |
|---|---|---|---|---|---|---|
| src/renderers/sprite.rs:229 | `remove_variation` refuses only when `index > count`, and never lowers the count after `Vec::remove` (same at line 223 for covers) | a type with two textures and count 2, index 2: the guard admits it and `Vec::remove(2)` panics (`Sprites.GuardAdmitsCount`); any successful removal leaves count = length + 1 (`Sprites.StaleCountBreaksConsistency`) | refuse `index >= count` and decrement the count, so the count keeps equal to the number of textures (`Sprites.RemoveKeepsConsistent`) | not executed | Sprites.RemoveVariationAsWritten | Sprites.RemoveVariation |
| src/renderers/sprite.rs:610 | the 2.5D cover instances are created for `1..=self.variations[key]`, the plain count, but drawn with `textures_cover` (line 703) and chosen by `variations_cover` (line 607) | plain count 2, one cover texture: key `Forest_1` indexes a one-element cover list (`Sprites.CoverKeysOverrun`) | iterate `1..=self.variations_cover[key]`, so every cover key finds its texture (`Sprites.CoverKeysResolve`) | not executed | Sprites.CoverLookupsAsWritten | Sprites.CoverLookups |
